/** The objects of the fusion stage, updated in place, each call proved to do what the Fusion module says. */
module FusionService {
  import opened Common
  import opened Packets
  import opened Plm
  import opened Sorting
  import opened Combine
  import F = Fusion

  // ------------------------------------------------------------------ _Bucket

  class Bucket {
    const cfg: F.Config
    var key: Wire
    var sightings: seq<Sighting>
    var openedAt: real
    var lastAt: real
    var refBits: Bits
    var hasGood: bool

    ghost function State(): F.BucketState
      reads this
    {
      F.BucketState(key, sightings, openedAt, lastAt, refBits, hasGood)
    }

    constructor (cfg: F.Config, key: Wire, first: Sighting)
      ensures this.cfg == cfg && State() == F.NewBucket(key, first)
    {
      this.cfg := cfg;
      this.key := key;
      this.sightings := [];
      this.openedAt := first.when;
      this.lastAt := first.when;
      this.refBits := first.bits;
      this.hasGood := false;
      new;
      Add(first);
    }

    method Add(s: Sighting)
      modifies this
      ensures State() == F.AddTo(old(State()), s)
    {
      sightings := sightings + [s];
      openedAt := F.MinReal(openedAt, s.when);
      lastAt := F.MaxReal(lastAt, s.when);
      if |s.bits| > |refBits| {
        refBits := s.bits;
      }
      if s.packet.Verified() {
        hasGood := true;
        key := MessageKey(s.packet);
      }
    }

    method AddEach(more: seq<Sighting>)
      modifies this
      ensures State() == F.AddAll(old(State()), more)
    {
      hide F.AddTo;
      for i := 0 to |more|
        invariant State() == F.AddAll(old(State()), more[..i])
      {
        assert more[..i + 1][..i] == more[..i];
        Add(more[i]);
      }
      assert more[..|more|] == more;
    }

    function Deadline(): real
      reads this
      ensures Deadline() == F.Deadline(cfg, State())
    {
      F.MinReal(lastAt + cfg.window + cfg.extend * ((|sightings| - 1) as real), openedAt + cfg.maxWindow)
    }

    predicate Accepts(when: real)
      reads this
      ensures Accepts(when) == F.Accepts(cfg, State(), when)
    {
      openedAt - cfg.window <= when <= Deadline()
    }

    predicate IsClosed(now: real)
      reads this
      ensures IsClosed(now) == F.IsClosed(cfg, State(), now)
    {
      now > Deadline()
    }

    method Build() returns (event: F.FusedEvent)
      requires sightings != []
      ensures event == F.Build(cfg, State())
    {
      hide F.GoodCopy, F.BetterCopy, F.IntoViews, F.Closest, F.Views, F.BestGood, F.HopsMin, F.HopsMax, CombineOf;
      var views: seq<F.ReceiverView> := [];
      var best: Option<Sighting> := None;
      var lowest, highest := sightings[0].packet.HopsLeft(), sightings[0].packet.HopsLeft();
      NothingTallied();
      assert sightings[..0] == [];
      for i := 0 to |sightings|
        invariant views == F.Views(sightings[..i]) && best == F.BestGood(sightings[..i])
        invariant i == 0 ==> lowest == highest == sightings[0].packet.HopsLeft()
        invariant i > 0 ==> lowest == F.HopsMin(sightings[..i]) && highest == F.HopsMax(sightings[..i])
      {
        var s := sightings[i];
        TallyStep(sightings[..i], s);
        assert sightings[..i] + [s] == sightings[..i + 1];
        views := F.IntoViews(views, s);
        if F.GoodCopy(s) && (best.None? || F.BetterCopy(s, best.value)) {
          best := Some(s);
        }
        if i > 0 {
          lowest := if s.packet.HopsLeft() < lowest then s.packet.HopsLeft() else lowest;
          highest := if s.packet.HopsLeft() > highest then s.packet.HopsLeft() else highest;
        }
      }
      assert sightings[..|sightings|] == sightings;
      F.ViewsNonEmpty(sightings);
      var packet, combined, from := sightings[0].packet, false, 0;
      if best.Some? {
        packet := best.value.packet;
      } else if cfg.allowCombine {
        var got := CombineCopies(sightings);
        if got.Some? {
          packet, combined, from := got.value.0, true, got.value.1;
        }
      }
      event := F.FusedEvent(key, packet, openedAt, lastAt, lowest, highest, views, F.Closest(views).name, combined, from, 0);
    }
  }

  lemma NothingTallied()
    ensures F.Views([]) == [] && F.BestGood([]) == None
  {
  }

  lemma TallyStep(ss: seq<Sighting>, s: Sighting)
    ensures F.Views(ss + [s]) == F.IntoViews(F.Views(ss), s)
    ensures F.BestGood(ss + [s])
         == var best := F.BestGood(ss);
            if F.GoodCopy(s) && (best.None? || F.BetterCopy(s, best.value)) then Some(s) else best
    ensures var h := s.packet.HopsLeft();
            F.HopsMin(ss + [s]) == (if ss == [] then h else if h < F.HopsMin(ss) then h else F.HopsMin(ss)) &&
            F.HopsMax(ss + [s]) == if ss == [] then h else if h > F.HopsMax(ss) then h else F.HopsMax(ss)
  {
    hide F.IntoViews, F.GoodCopy, F.BetterCopy;
    assert (ss + [s])[..|ss|] == ss;
  }

  // ------------------------------------------------------------------ lists of buckets

  ghost function States(bs: seq<Bucket>): (r: seq<F.BucketState>)
    reads bs
    ensures |r| == |bs|
    ensures forall i :: 0 <= i < |r| ==> r[i] == bs[i].State()
  {
    seq(|bs|, i requires 0 <= i < |bs| reads bs => bs[i].State())
  }

  function InsertByOpening(b: Bucket, bs: seq<Bucket>): (r: seq<Bucket>)
    reads b, bs
    ensures multiset(r) == multiset{b} + multiset(bs)
  {
    if bs == [] || b.openedAt <= bs[0].openedAt then [b] + bs
    else
      assert bs == [bs[0]] + bs[1..];
      [bs[0]] + InsertByOpening(b, bs[1..])
  }

  /** The buckets by opening time, those opened together in the order they came. */
  function SortByOpening(bs: seq<Bucket>): (r: seq<Bucket>)
    reads bs
    ensures multiset(r) == multiset(bs)
    ensures forall i :: 0 <= i < |r| ==> r[i] in bs
  {
    if bs == [] then []
    else
      assert bs == [bs[0]] + bs[1..];
      var r := InsertByOpening(bs[0], SortByOpening(bs[1..]));
      FromMultiset(r, bs);
      r
  }

  lemma FromMultiset(r: seq<Bucket>, bs: seq<Bucket>)
    requires multiset(r) == multiset(bs)
    ensures forall i :: 0 <= i < |r| ==> r[i] in bs
  {
    assert forall i :: 0 <= i < |r| ==> r[i] in multiset(bs);
  }

  /** The buckets that have, or have not, a verified copy. */
  function Keep(bs: seq<Bucket>, good: bool): seq<Bucket>
    reads bs
  {
    if bs == [] then []
    else Keep(bs[..|bs| - 1], good) + if bs[|bs| - 1].hasGood == good then [bs[|bs| - 1]] else []
  }

  lemma {:induction false} KeepStates(bs: seq<Bucket>, good: bool)
    ensures States(Keep(bs, good)) == F.Filter(States(bs), good)
  {
    if bs != [] {
      var n := |bs| - 1;
      KeepStates(bs[..n], good);
      assert States(bs)[..n] == States(bs[..n]);
      assert States(Keep(bs[..n], good) + [bs[n]]) == States(Keep(bs[..n], good)) + [bs[n].State()];
    }
  }

  lemma KeepLast(bs: seq<Bucket>)
    requires bs != []
    ensures var b := bs[|bs| - 1];
            Keep(bs, true) == Keep(bs[..|bs| - 1], true) + (if b.hasGood then [b] else []) &&
            Keep(bs, false) == Keep(bs[..|bs| - 1], false) + if b.hasGood then [] else [b]
  {
  }

  lemma {:induction false} KeepPermutes(bs: seq<Bucket>)
    ensures multiset(Keep(bs, true)) + multiset(Keep(bs, false)) == multiset(bs)
  {
    if bs != [] {
      var n := |bs| - 1;
      KeepPermutes(bs[..n]);
      KeepLast(bs);
      assert bs == bs[..n] + [bs[n]];
      Dealt(Keep(bs[..n], true), Keep(bs[..n], false), bs[..n], bs[n], bs[n].hasGood);
      hide Keep;
    }
  }

  lemma NoEvents()
    ensures EventsOf([]) == []
  {
  }

  /** Sorting the events by first_seen is what the specification returns. */
  lemma SortEvents(out: seq<F.Emission>)
    ensures SortBy(EventsOf(out), (e: F.FusedEvent) => e.firstSeen) == F.Events(out)
  {
    SortSorted(out, F.FirstSeen());
    SortEventsOf(out);
    assert EventsOf(SortBy(out, F.FirstSeen())) == F.Events(out);
  }

  lemma {:induction false} SortEventsOf(out: seq<F.Emission>)
    ensures SortBy(EventsOf(out), (e: F.FusedEvent) => e.firstSeen) == EventsOf(SortBy(out, F.FirstSeen()))
  {
    if out != [] {
      SortEventsOf(out[1..]);
      assert EventsOf(out)[1..] == EventsOf(out[1..]);
      InsertEvents(out[0], SortBy(out[1..], F.FirstSeen()));
    }
  }

  lemma {:induction false} InsertEvents(e: F.Emission, out: seq<F.Emission>)
    ensures Insert(e.event, EventsOf(out), (e: F.FusedEvent) => e.firstSeen) == EventsOf(Insert(e, out, F.FirstSeen()))
  {
    if out != [] && e.event.firstSeen > out[0].event.firstSeen {
      InsertEvents(e, out[1..]);
      assert EventsOf(out)[1..] == EventsOf(out[1..]);
    }
  }

  lemma {:induction false} InsertStates(b: Bucket, bs: seq<Bucket>)
    ensures States(InsertByOpening(b, bs)) == Insert(b.State(), States(bs), F.Opened())
  {
    if bs == [] || b.openedAt <= bs[0].openedAt {
      assert States([b] + bs) == [b.State()] + States(bs);
    } else {
      InsertStates(b, bs[1..]);
      assert States(bs)[1..] == States(bs[1..]);
      var tail := InsertByOpening(b, bs[1..]);
      assert States([bs[0]] + tail) == [bs[0].State()] + States(tail);
    }
  }

  /** Sorting the objects sorts what they hold. */
  lemma {:induction false} SortStates(bs: seq<Bucket>)
    ensures States(SortByOpening(bs)) == SortBy(States(bs), F.Opened())
  {
    if bs != [] {
      SortStates(bs[1..]);
      InsertStates(bs[0], SortByOpening(bs[1..]));
      assert States(bs)[1..] == States(bs[1..]);
    }
  }

  // ------------------------------------------------------------------ Fusion

  datatype OpenSlot = OpenSlot(key: Wire, bucket: Bucket)

  function BucketsOf(open: seq<OpenSlot>): (r: seq<Bucket>)
    ensures |r| == |open|
    ensures forall i :: 0 <= i < |r| ==> r[i] == open[i].bucket
  {
    seq(|open|, i requires 0 <= i < |open| => open[i].bucket)
  }

  ghost function Slots(open: seq<OpenSlot>): (r: seq<F.Slot>)
    reads BucketsOf(open)
    ensures |r| == |open|
    ensures forall i :: 0 <= i < |r| ==> r[i] == F.Slot(open[i].key, open[i].bucket.State())
  {
    seq(|open|, i requires 0 <= i < |open| reads BucketsOf(open) => F.Slot(open[i].key, BucketsOf(open)[i].State()))
  }

  /** The dictionary lookup. */
  function Lookup(open: seq<OpenSlot>, key: Wire): (r: Option<nat>)
    ensures r.Some? ==> r.value < |open| && open[r.value].key == key
  {
    if open == [] then None
    else if open[|open| - 1].key == key then Some(|open| - 1)
    else Lookup(open[..|open| - 1], key)
  }

  lemma {:induction false} LookupIsSlotOf(open: seq<OpenSlot>, key: Wire)
    ensures Lookup(open, key) == F.SlotOf(Slots(open), key)
  {
    if open != [] {
      LookupIsSlotOf(open[..|open| - 1], key);
      assert Slots(open)[..|open| - 1] == Slots(open[..|open| - 1]);
    }
  }

  function EventsOf(out: seq<F.Emission>): (r: seq<F.FusedEvent>)
    ensures |r| == |out|
  {
    seq(|out|, i requires 0 <= i < |out| => out[i].event)
  }

  class Fusion {
    const cfg: F.Config
    var open: seq<OpenSlot>
    var ready: seq<Bucket>
    var closed: map<Wire, F.ClosedKey>
    var late: map<string, nat>
    var folded: nat

    ghost function State(): F.FusionState
      reads this, BucketsOf(open), ready
    {
      F.FusionState(Slots(open), States(ready), closed, late, folded)
    }

    ghost function Objects(): seq<Bucket>
      reads this
    {
      BucketsOf(open) + ready
    }

    ghost function Footprint(): set<Bucket>
      reads this
    {
      set b | b in Objects()
    }

    /** No bucket is held twice, all follow this configuration, and none is empty. */
    ghost predicate Valid()
      reads this, BucketsOf(open), ready
    {
      Distinct(Objects()) && F.Sane(State()) && forall i :: 0 <= i < |Objects()| ==> Objects()[i].cfg == cfg
    }

    constructor (cfg: F.Config)
      ensures Valid() && this.cfg == cfg && State() == F.EMPTY && Objects() == []
    {
      this.cfg := cfg;
      open, ready, closed, late, folded := [], [], map[], map[], 0;
    }

    predicate IsStraggler(key: Wire, s: Sighting)
      reads this
      ensures IsStraggler(key, s) == F.Straggler(cfg, closed, key, s)
    {
      s.packet.Verified() && key in closed && closed[key].first - cfg.window <= s.when <= closed[key].last + cfg.window
    }

    /** _nearest: the slot of the open bucket whose bits are closest, if close enough. */
    method Nearest(s: Sighting) returns (best: Option<nat>)
      requires forall i :: 0 <= i < |open| ==> open[i].bucket.cfg == cfg
      ensures var near := F.Nearest(cfg, Slots(open), s, |open|);
              best == if near.Near? then Some(near.slot) else None
    {
      hide Distance, F.Accepts;
      best := None;
      var bestDistance := MAX_DISAGREEMENTS + 1;
      for i := 0 to |open|
        invariant var near := F.Nearest(cfg, Slots(open), s, i);
                  best == (if near.Near? then Some(near.slot) else None) &&
                  bestDistance == if near.Near? then near.distance else MAX_DISAGREEMENTS + 1
      {
        var bucket := open[i].bucket;
        if !(s.packet.Verified() && bucket.hasGood) && bucket.Accepts(s.when) {
          var d := Hamming(s.bits, bucket.refBits, MAX_DISAGREEMENTS);
          if d.Some? && d.value <= MAX_DISAGREEMENTS && d.value < bestDistance {
            best, bestDistance := Some(i), d.value;
          }
        }
      }
    }

    /** Put one more sighting into the open bucket at a slot. */
    method AddAt(i: nat, s: Sighting)
      requires Valid() && i < |open|
      modifies open[i].bucket
      ensures Valid() && State() == old(State()).(open := F.AddToSlot(old(Slots(open)), i, s))
      ensures Footprint() == old(Footprint())
    {
      hide F.AddTo;
      var b := open[i].bucket;
      OthersApart(i);
      b.Add(s);
      assert Slots(open) == F.AddToSlot(old(Slots(open)), i, s);
      assert States(ready) == old(States(ready));
      F.AddToSightings(old(b.State()), s);
      forall j | 0 <= j < |open| ensures F.Buckets(Slots(open))[j].sightings != [] {
        assert F.Buckets(old(Slots(open)))[j].sightings != [];
      }
    }

    lemma OthersApart(i: nat)
      requires Valid() && i < |open|
      ensures forall j :: 0 <= j < |open| && j != i ==> open[j].bucket != open[i].bucket
      ensures forall j :: 0 <= j < |ready| ==> ready[j] != open[i].bucket
    {
      var all := Objects();
      assert forall j :: 0 <= j < |open| ==> all[j] == open[j].bucket;
      assert forall j :: 0 <= j < |ready| ==> all[|open| + j] == ready[j];
    }

    /** Fusion.add */
    method Add(s: Sighting)
      requires Valid()
      modifies this, Footprint()
      ensures Valid() && State() == F.AddStep(cfg, old(State()), s)
      ensures fresh(Footprint() - old(Footprint()))
    {
      hide F.AddTo, F.NewBucket, F.Nearest, F.Straggler, F.Accepts, F.Place, F.AddToSlot, MessageKey, Valid, BucketsOf,
           F.CountLate, F.LateOf, F.SlotOf, F.AddStep, States, Slots, F.Sane, Lookup, Distinct;
      var key := MessageKey(s.packet);
      var at := Lookup(open, key);
      LookupIsSlotOf(open, key);
      ObjectsConfigured();
      F.AddCases(cfg, State(), s);
      if at.Some? {
        var i := at.value;
        if open[i].bucket.Accepts(s.when) {
          AddAt(i, s);
          return;
        }
        Retire(i);
      } else if IsStraggler(key, s) {
        CountLate(s.receiver);
        return;
      }
      Place(key, s);
    }

    method CountLate(receiver: string)
      requires Valid()
      modifies this
      ensures Valid() && Footprint() == old(Footprint())
      ensures State() == old(State()).(late := F.CountLate(old(late), receiver))
    {
      late := F.CountLate(late, receiver);
    }

    lemma ObjectsConfigured()
      requires Valid()
      ensures forall i :: 0 <= i < |open| ==> open[i].bucket.cfg == cfg && open[i].bucket in Footprint()
    {
      var all := Objects();
      assert forall j :: 0 <= j < |open| ==> all[j] == open[j].bucket;
    }

    /** End the bucket at a slot: a newer transmission of its message has begun. */
    method Retire(i: nat)
      requires Valid() && i < |open|
      modifies this
      ensures Valid() && Footprint() <= old(Footprint())
      ensures State() == old(State()).(open := old(Slots(open))[..i] + old(Slots(open))[i + 1..],
                                       ready := old(States(ready)) + [old(open[i].bucket.State())])
    {
      RetireViews(open, ready, i);
      RetireParts(i);
      hide Distinct, F.Sane, BucketsOf, Slots, States;
      open, ready := open[..i] + open[i + 1..], ready + [open[i].bucket];
    }

    lemma RetireParts(i: nat)
      requires Valid() && i < |open|
      ensures var all := BucketsOf(open[..i] + open[i + 1..]) + (ready + [open[i].bucket]);
              Distinct(all) && (set b | b in all) == Footprint() && (forall j :: 0 <= j < |all| ==> all[j].cfg == cfg) &&
              F.Sane(State().(open := Slots(open)[..i] + Slots(open)[i + 1..], ready := States(ready) + [open[i].bucket.State()]))
    {
      var all := BucketsOf(open[..i] + open[i + 1..]) + (ready + [open[i].bucket]);
      RetireSane(State(), i);
      RetireViews(open, ready, i);
      RetirePermutes(BucketsOf(open), ready, i);
      hide F.Sane, BucketsOf, Slots, States;
      DistinctMultiset(Objects());
      DistinctMultiset(all);
      hide Distinct;
      SameConfig(Objects(), all, cfg);
      SameObjects(all, Objects());
    }

    /** Join the nearest open bucket, or open a new one. */
    method Place(key: Wire, s: Sighting)
      requires Valid()
      modifies this, Footprint()
      ensures Valid() && State() == old(State()).(open := F.Place(cfg, old(Slots(open)), key, s))
      ensures fresh(Footprint() - old(Footprint()))
    {
      hide F.AddTo, F.NewBucket, F.Nearest, F.Sane, Distinct, BucketsOf;
      ObjectsConfigured();
      if cfg.allowCombine {
        var near := Nearest(s);
        if near.Some? {
          AddAt(near.value, s);
          return;
        }
      }
      OpenBucket(key, s);
    }

    /** A new bucket under a key no slot has. */
    method OpenBucket(key: Wire, s: Sighting)
      requires Valid()
      modifies this
      ensures Valid() && State() == old(State()).(open := old(Slots(open)) + [F.Slot(key, F.NewBucket(key, s))])
      ensures fresh(Footprint() - old(Footprint()))
    {
      hide F.NewBucket, F.AddTo, Distinct, F.Sane, BucketsOf, Slots, States;
      ghost var was := Objects();
      var b := new Bucket(cfg, key, s);
      NewSightings(key, s);
      OpenSane(State(), F.Slot(key, b.State()));
      DistinctInsert(BucketsOf(open), b, ready);
      OpenViews(open, OpenSlot(key, b), ready);
      Inserted(BucketsOf(open), b, ready, cfg);
      open := open + [OpenSlot(key, b)];
    }

    // -------------------------------------------------------------- emitting

    /** Buckets out of the tables, distinct from those in them. */
    ghost predicate Loose(bs: seq<Bucket>)
      reads this`open, bs
    {
      Distinct(bs) && forall i :: 0 <= i < |bs| ==> bs[i] !in BucketsOf(open) && bs[i].sightings != [] && bs[i].cfg == cfg
    }

    /** _finish */
    method Finish(b: Bucket, built: F.FusedEvent, now: real, ghost em: F.Emitting)
      returns (event: F.FusedEvent, ghost after: F.Emitting)
      requires Valid() && em.st == State()
      modifies this`closed
      ensures Valid() && after == F.Finish(em, b.State(), built, now) && after.st == State()
      ensures EventsOf(after.out) == EventsOf(em.out) + [event]
    {
      hide F.NonEmpty, Distinct, MessageKey;
      var key := if built.combined then MessageKey(built.packet) else built.key;
      var index := if key in closed then closed[key].index + 1 else 0;
      event := built.(key := key, repeatIndex := index);
      closed := closed[key := F.ClosedKey(now, index, event.firstSeen, event.lastSeen)];
      after := F.Finish(em, b.State(), built, now);
    }

    /** The first pending bucket of this message that accepts a copy from `when`. */
    method FindHome(pending: seq<Bucket>, key: Wire, when: real) returns (home: Option<nat>)
      requires forall i :: 0 <= i < |pending| ==> pending[i].cfg == cfg
      ensures home == F.HomeOf(cfg, States(pending), key, when)
    {
      hide F.Accepts;
      for i := 0 to |pending|
        invariant F.HomeOf(cfg, States(pending), key, when)
               == match F.HomeOf(cfg, States(pending)[i..], key, when) case None => None case Some(k) => Some(i + k)
      {
        assert States(pending)[i..][1..] == States(pending)[i + 1..];
        if pending[i].key == key && pending[i].Accepts(when) {
          return Some(i);
        }
      }
      home := None;
    }

    /** Every copy of a damaged bucket joins the pending one that claims it. */
    method FoldIntoPending(pending: seq<Bucket>, home: nat, more: seq<Sighting>)
      requires Valid() && ready == [] && home < |pending| && Loose(pending)
      modifies this`folded, pending[home]
      ensures Valid() && Loose(pending)
      ensures States(pending) == old(States(pending))[home := F.AddAll(old(pending[home].State()), more)]
      ensures State() == old(State()).(folded := old(folded) + 1)
    {
      hide F.AddAll;
      PendingApart(pending, home);
      pending[home].AddEach(more);
      F.AddAllSightings(old(pending[home].State()), more);
      assert Slots(open) == old(Slots(open));
      assert States(pending) == old(States(pending))[home := pending[home].State()];
      folded := folded + 1;
    }

    lemma PendingApart(pending: seq<Bucket>, i: nat)
      requires Loose(pending) && i < |pending|
      ensures forall j :: 0 <= j < |pending| && j != i ==> pending[j] != pending[i]
      ensures forall j :: 0 <= j < |open| ==> open[j].bucket != pending[i]
    {
      assert forall j :: 0 <= j < |open| ==> BucketsOf(open)[j] in BucketsOf(open);
    }

    /** The same for a live home. */
    method FoldIntoOpen(pending: seq<Bucket>, live: nat, more: seq<Sighting>)
      requires Valid() && ready == [] && live < |open| && Loose(pending)
      modifies this`folded, open[live].bucket
      ensures Valid() && Loose(pending) && States(pending) == old(States(pending))
      ensures State() == old(State()).(folded := old(folded) + 1,
                           open := old(Slots(open))[live := F.Slot(open[live].key, F.AddAll(old(open[live].bucket.State()), more))])
    {
      hide F.AddAll, Distinct;
      var b := open[live].bucket;
      OthersApart(live);
      OpenApart(pending, live);
      b.AddEach(more);
      F.AddAllSightings(old(b.State()), more);
      assert Slots(open) == old(Slots(open))[live := F.Slot(open[live].key, b.State())];
      assert States(pending) == old(States(pending));
      forall j | 0 <= j < |open| ensures F.Buckets(Slots(open))[j].sightings != [] {
        assert F.Buckets(old(Slots(open)))[j].sightings != [];
      }
      folded := folded + 1;
    }

    lemma OpenApart(pending: seq<Bucket>, i: nat)
      requires Loose(pending) && i < |open|
      ensures forall j :: 0 <= j < |pending| ==> pending[j] != open[i].bucket
    {
      assert BucketsOf(open)[i] in BucketsOf(open);
    }

    /** Fold a repaired bucket home, if there is one or its event has gone. */
    method TryFold(b: Bucket, key: Wire, pending: seq<Bucket>, ghost em: F.Emitting) returns (done: bool)
      requires Valid() && ready == [] && Loose(pending) && b.cfg == cfg
      requires b !in pending && b !in BucketsOf(open)
      requires em.st == State() && em.pending == States(pending)
      modifies this`late, this`folded, BucketsOf(open), pending
      ensures Valid() && Loose(pending)
      ensures done == F.Fold(cfg, em, b.State(), key).Some? && b.State() == old(b.State())
      ensures done ==> var after := F.Fold(cfg, em, b.State(), key).value;
                       after.st == State() && after.pending == States(pending) && after.out == em.out
      ensures !done ==> State() == old(State()) && States(pending) == old(States(pending))
    {
      hide F.AddAll, F.CountAllLate, F.Accepts, Distinct, F.NonEmpty, EventsOf, Slots, States, F.SlotOf, F.HomeOf, F.Sane,
           BucketsOf, Loose, Valid;
      LooseConfigured(pending);
      var home := FindHome(pending, key, b.openedAt);
      if home.Some? {
        FoldIntoPending(pending, home.value, b.sightings);
        return true;
      }
      done := TryFoldLive(b, key, pending, em);
    }

    /** No pending bucket claims it: a live one may, or the closed table may say that it is late. */
    method TryFoldLive(b: Bucket, key: Wire, pending: seq<Bucket>, ghost em: F.Emitting) returns (done: bool)
      requires Valid() && ready == [] && Loose(pending) && b.cfg == cfg
      requires b !in pending && b !in BucketsOf(open)
      requires em.st == State() && em.pending == States(pending) && F.HomeOf(cfg, em.pending, key, b.openedAt).None?
      modifies this`late, this`folded, BucketsOf(open)
      ensures Valid() && Loose(pending) && b.State() == old(b.State()) && States(pending) == old(States(pending))
      ensures done == F.Fold(cfg, em, b.State(), key).Some?
      ensures done ==> var after := F.Fold(cfg, em, b.State(), key).value;
                       after.st == State() && after.pending == States(pending) && after.out == em.out
      ensures !done ==> State() == old(State())
    {
      hide F.AddAll, F.CountAllLate, F.Accepts, Distinct, F.NonEmpty, EventsOf, Slots, States, F.SlotOf, F.HomeOf, Lookup,
           F.Sane, BucketsOf, Loose, Valid;
      ObjectsConfigured();
      InBuckets();
      var live := Lookup(open, key);
      LookupIsSlotOf(open, key);
      if live.Some? && open[live.value].bucket.Accepts(b.openedAt) {
        FoldIntoOpen(pending, live.value, b.sightings);
        return true;
      }
      if key in closed && closed[key].first - cfg.window <= b.openedAt <= closed[key].last + cfg.window {
        CountEachLate(b.sightings);
        return true;
      }
      done := false;
    }

    lemma LooseConfigured(bs: seq<Bucket>)
      requires Loose(bs)
      ensures forall i :: 0 <= i < |bs| ==> bs[i].cfg == cfg
    {
      hide Distinct;
    }

    lemma InBuckets()
      ensures forall i :: 0 <= i < |open| ==> open[i].bucket in BucketsOf(open)
    {
      assert forall i :: 0 <= i < |open| ==> BucketsOf(open)[i] in BucketsOf(open);
    }

    /** One turn of the loop over buckets without a verified copy. */
    method Settle(b: Bucket, pending: seq<Bucket>, now: real, ghost em: F.Emitting)
      returns (finished: seq<F.FusedEvent>, ghost after: F.Emitting)
      requires Valid() && ready == [] && Loose(pending) && b.sightings != [] && b.cfg == cfg
      requires b !in pending && b !in BucketsOf(open)
      requires em.st == State() && em.pending == States(pending)
      modifies this`late, this`folded, this`closed, BucketsOf(open), pending
      ensures Valid() && Loose(pending) && b.State() == old(b.State())
      ensures after == F.Settle(cfg, em, b.State(), now) && after.st == State() && after.pending == States(pending)
      ensures EventsOf(after.out) == EventsOf(em.out) + finished
    {
      hide F.Build, F.Fold, F.Finish, F.Accepts, MessageKey, Distinct, F.NonEmpty, EventsOf, Slots, States;
      finished := [];
      var event := b.Build();
      var key := MessageKey(event.packet);
      if event.combined {
        var done := TryFold(b, key, pending, em);
        if done {
          after := F.Settle(cfg, em, b.State(), now);
          return;
        }
      }
      F.FinishKeepsPending(em, b.State(), event, now);
      var settled;
      settled, after := Finish(b, event, now, em);
      finished := [settled];
    }

    method CountEachLate(more: seq<Sighting>)
      requires Valid()
      modifies this`late, this`folded
      ensures Valid() && State() == old(State()).(folded := old(folded) + 1, late := F.CountAllLate(old(late), more))
    {
      hide F.NonEmpty, Distinct, F.CountLate;
      for i := 0 to |more|
        invariant Valid() && State() == old(State()).(late := F.CountAllLate(old(late), more[..i]))
      {
        assert more[..i + 1][..i] == more[..i];
        late := F.CountLate(late, more[i].receiver);
      }
      assert more[..|more|] == more;
      folded := folded + 1;
    }

    /** The loop over buckets without a verified copy. */
    method SettleDamaged(damaged: seq<Bucket>, pending: seq<Bucket>, now: real, ghost start: F.Emitting)
      returns (events: seq<F.FusedEvent>, ghost em: F.Emitting)
      requires Valid() && ready == [] && Loose(pending + damaged)
      requires start.st == State() && start.pending == States(pending) && start.out == []
      modifies this`late, this`folded, this`closed, BucketsOf(open), pending
      ensures F.NonEmpty(old(States(damaged))) && em == F.SettleAll(cfg, start, old(States(damaged)), now)
      ensures Valid() && Loose(pending)
      ensures em.st == State() && em.pending == States(pending) && EventsOf(em.out) == events
    {
      hide F.Settle, EventsOf, Slots, F.Sane, Distinct, BucketsOf, Loose, Valid;
      ghost var states := States(damaged);
      LooseParts(pending, damaged);
      NoEvents();
      events, em := [], start;
      for i := 0 to |damaged|
        invariant Valid() && Loose(pending) && States(damaged) == states
        invariant em == F.SettleAll(cfg, start, states[..i], now)
        invariant em.st == State() && em.pending == States(pending) && EventsOf(em.out) == events
      {
        assert states[..i + 1][..i] == states[..i];
        ghost var before := em;
        var finished;
        finished, em := Settle(damaged[i], pending, now, em);
        events := events + finished;
      }
      assert states[..|damaged|] == states;
    }

    lemma LooseParts(a: seq<Bucket>, b: seq<Bucket>)
      requires Loose(a + b)
      ensures Loose(a) && Loose(b) && F.NonEmpty(States(a)) && F.NonEmpty(States(b))
      ensures forall i :: 0 <= i < |b| ==> b[i] !in a && b[i] !in BucketsOf(open) && b[i].cfg == cfg
    {
      var all := a + b;
      assert forall i :: 0 <= i < |a| ==> all[i] == a[i];
      assert forall i :: 0 <= i < |b| ==> all[|a| + i] == b[i];
    }

    /** The loop over the buckets that hold a verified copy. */
    method FinishPending(pending: seq<Bucket>, now: real, earlier: seq<F.FusedEvent>, ghost start: F.Emitting)
      returns (events: seq<F.FusedEvent>, ghost em: F.Emitting)
      requires Valid() && Loose(pending)
      requires start.st == State() && start.pending == States(pending) && EventsOf(start.out) == earlier
      modifies this`closed
      ensures F.NonEmpty(start.pending)
      ensures Valid() && em == F.FinishAll(cfg, start, start.pending, now) && em.st == State() && EventsOf(em.out) == events
    {
      hide F.Finish, F.Build, EventsOf, Slots, F.Sane, Distinct;
      events, em := earlier, start;
      ghost var states := States(pending);
      for i := 0 to |pending|
        invariant Valid() && em == F.FinishAll(cfg, start, states[..i], now)
        invariant em.st == State() && EventsOf(em.out) == events
      {
        assert states[..i + 1][..i] == states[..i];
        assert pending[i].State() == states[i];
        var event := pending[i].Build();
        event, em := Finish(pending[i], event, now, em);
        events := events + [event];
      }
      assert states[..|pending|] == states;
    }

    /** _emit */
    method Emit(done: seq<Bucket>, now: real) returns (events: seq<F.FusedEvent>)
      requires Valid() && ready == [] && Loose(done)
      modifies this`late, this`folded, this`closed, BucketsOf(open), done
      ensures Valid() && F.NonEmpty(old(States(done)))
      ensures var em := F.Emit(cfg, old(State()), old(States(done)), now);
              State() == em.st && events == F.Events(em.out)
    {
      hide F.SettleAll, F.FinishAll, F.Filter, SortBy, F.Sane, Slots, F.Events;
      var sorted := SortByOpening(done);
      SortStates(done);
      var pending, damaged := Keep(sorted, true), Keep(sorted, false);
      KeepStates(sorted, true);
      KeepStates(sorted, false);
      KeepPermutes(sorted);
      assert multiset(pending + damaged) == multiset(pending) + multiset(damaged);
      SplitLoose(done, pending, damaged);
      F.SortNonEmpty(States(done));
      ghost var start := F.Emitting(State(), States(pending), [], []);
      F.FilterNonEmpty(States(sorted), true);
      F.FilterNonEmpty(States(sorted), false);
      F.SettleKeepsPending(cfg, start, F.Filter(States(sorted), false), now);
      ghost var em;
      events, em := SettleDamaged(damaged, pending, now, start);
      events, em := FinishPending(pending, now, events, em);
      SortEvents(em.out);
      events := SortBy(events, (e: F.FusedEvent) => e.firstSeen);
    }

    lemma SplitLoose(done: seq<Bucket>, pending: seq<Bucket>, damaged: seq<Bucket>)
      requires Loose(done) && multiset(pending + damaged) == multiset(done)
      ensures Loose(pending + damaged)
      ensures forall i :: 0 <= i < |pending| ==> pending[i] in done
    {
      var split := pending + damaged;
      DistinctMultiset(done);
      DistinctMultiset(split);
      SameObjects(split, done);
      hide Distinct, BucketsOf;
      assert forall i :: 0 <= i < |pending| ==> split[i] == pending[i];
    }

    /** Take `done` out of the tables, leaving `still`. */
    method Detach(still: seq<OpenSlot>, done: seq<Bucket>)
      requires Valid()
      requires multiset(BucketsOf(still)) + multiset(done) == multiset(BucketsOf(open)) + multiset(ready)
      modifies this`open, this`ready
      ensures open == still && ready == [] && Valid() && Loose(done)
      ensures State() == old(State()).(open := old(Slots(still)), ready := []) && States(done) == old(States(done))
      ensures Footprint() + (set b | b in done) == old(Footprint())
    {
      DetachParts(still, done);
      hide Distinct, F.NonEmpty, Bucket.State;
      open, ready := still, [];
      assert Objects() == BucketsOf(still);
    }

    lemma DetachParts(still: seq<OpenSlot>, done: seq<Bucket>)
      requires Valid()
      requires multiset(BucketsOf(still)) + multiset(done) == multiset(BucketsOf(open)) + multiset(ready)
      ensures var kept := BucketsOf(still) + done;
              Distinct(BucketsOf(still)) && Distinct(done) && (set b | b in kept) == Footprint() &&
              (forall i :: 0 <= i < |still| ==> still[i].bucket.cfg == cfg) &&
              (forall i :: 0 <= i < |done| ==> done[i] !in BucketsOf(still) && done[i].cfg == cfg && done[i].sightings != []) &&
              F.NonEmpty(F.Buckets(Slots(still)))
    {
      var kept := BucketsOf(still) + done;
      assert multiset(kept) == multiset(Objects());
      DistinctMultiset(Objects());
      DistinctMultiset(kept);
      SameObjects(kept, Objects());
      SameConfig(Objects(), kept, cfg);
      AllNonEmpty();
      hide F.Sane;
      assert forall i :: 0 <= i < |still| ==> kept[i] == still[i].bucket;
      assert forall i :: 0 <= i < |done| ==> kept[|still| + i] == done[i];
    }

    lemma AllNonEmpty()
      requires Valid()
      ensures forall b :: b in Objects() ==> b.sightings != []
    {
      forall i | 0 <= i < |Objects()| ensures Objects()[i].sightings != [] {
        if i < |open| {
          assert F.Buckets(Slots(open))[i].sightings != [];
        } else {
          assert States(ready)[i - |open|].sightings != [];
        }
      }
    }

    /** The buckets whose deadline has passed join the ready ones; the rest stay. */
    method TakeClosed(now: real) returns (still: seq<OpenSlot>, done: seq<Bucket>)
      requires forall i :: 0 <= i < |open| ==> open[i].bucket.cfg == cfg
      ensures Slots(still) == F.StillOpen(cfg, Slots(open), now)
      ensures States(done) == States(ready) + F.ClosedBuckets(cfg, Slots(open), now)
      ensures multiset(BucketsOf(still)) + multiset(done) == multiset(BucketsOf(open)) + multiset(ready)
    {
      hide F.Deadline, F.ClosedBuckets, F.StillOpen, F.IsClosed;
      done, still := ready, [];
      ghost var slots := Slots(open);
      ClosingNone(cfg, slots, now);
      for i := 0 to |open|
        invariant Slots(still) == F.StillOpen(cfg, slots[..i], now)
        invariant States(done) == States(ready) + F.ClosedBuckets(cfg, slots[..i], now)
        invariant multiset(BucketsOf(still)) + multiset(done) == multiset(BucketsOf(open)[..i]) + multiset(ready)
      {
        var bucket := open[i].bucket;
        ClosingOne(cfg, slots, i, now);
        assert BucketsOf(open)[..i + 1] == BucketsOf(open)[..i] + [bucket];
        TakeViews(still, done, open[i]);
        MultisetAppend(BucketsOf(open)[..i], bucket);
        Rebalance(multiset(BucketsOf(still)), multiset(done), multiset(BucketsOf(open)[..i]), multiset(ready), bucket);
        if bucket.IsClosed(now) {
          done := done + [bucket];
        } else {
          still := still + [open[i]];
        }
      }
      assert slots[..|open|] == slots && BucketsOf(open)[..|open|] == BucketsOf(open);
    }

    /** Forget old keys and take out every bucket that is due. */
    method Collect(now: real) returns (done: seq<Bucket>)
      requires Valid()
      modifies this
      ensures Valid() && ready == [] && Loose(done) && Footprint() + (set b | b in done) == old(Footprint())
      ensures State() == F.PopRest(cfg, old(State()), now) && States(done) == F.PopDone(cfg, old(State()), now)
    {
      hide F.Deadline, F.ClosedBuckets, F.StillOpen, F.Remembered, F.NonEmpty, Distinct;
      closed := F.Remembered(cfg, closed, now);
      ObjectsConfigured();
      var still;
      still, done := TakeClosed(now - cfg.lateness);
      Detach(still, done);
    }

    /** pop_ready */
    method PopReady(now: real) returns (events: seq<F.FusedEvent>)
      requires Valid()
      modifies this, Footprint()
      ensures Valid() && Footprint() <= old(Footprint())
      ensures F.Sane(old(State())) &&
              var em := F.PopStep(cfg, old(State()), now);
              State() == em.st && events == F.Events(em.out)
    {
      hide F.Emit, F.PopRest, F.PopDone, F.Events, F.NonEmpty, F.Sane, Distinct, Slots, States;
      F.PopDoneNonEmpty(cfg, State(), now);
      var done := Collect(now);
      events := Emit(done, now);
    }

    /** flush */
    method Flush(now: real) returns (events: seq<F.FusedEvent>)
      requires Valid()
      modifies this, Footprint()
      ensures Valid() && Footprint() <= old(Footprint())
      ensures F.Sane(old(State())) &&
              var em := F.FlushStep(cfg, old(State()), now);
              State() == em.st && events == F.Events(em.out)
    {
      hide F.Emit, F.Events, SortBy, F.NonEmpty, Distinct, BucketsOf, Slots, States, F.Buckets, F.Sane;
      var done := ready + BucketsOf(open);
      FlushViews(open, ready);
      Detach([], done);
      events := Emit(done, now);
    }
  }

  lemma FlushViews(open: seq<OpenSlot>, ready: seq<Bucket>)
    ensures States(ready + BucketsOf(open)) == States(ready) + F.Buckets(Slots(open))
    ensures BucketsOf([]) == [] && Slots([]) == []
  {
  }

  lemma Inserted(a: seq<Bucket>, b: Bucket, c: seq<Bucket>, cfg: F.Config)
    requires b.cfg == cfg && forall i :: 0 <= i < |a + c| ==> (a + c)[i].cfg == cfg
    ensures var with := a + [b] + c;
            (forall i :: 0 <= i < |with| ==> with[i].cfg == cfg) && forall x :: x in with ==> x == b || x in a + c
  {
    var with := a + [b] + c;
    assert forall j :: 0 <= j < |with| ==> with[j] == b || with[j] in a + c;
  }

  lemma OpenViews(open: seq<OpenSlot>, slot: OpenSlot, ready: seq<Bucket>)
    ensures Slots(open + [slot]) == Slots(open) + [F.Slot(slot.key, slot.bucket.State())]
    ensures BucketsOf(open + [slot]) + ready == BucketsOf(open) + [slot.bucket] + ready
  {
  }

  lemma TakeViews(still: seq<OpenSlot>, done: seq<Bucket>, slot: OpenSlot)
    ensures Slots(still + [slot]) == Slots(still) + [F.Slot(slot.key, slot.bucket.State())]
    ensures States(done + [slot.bucket]) == States(done) + [slot.bucket.State()]
    ensures multiset(BucketsOf(still + [slot])) == multiset(BucketsOf(still)) + multiset{slot.bucket}
    ensures multiset(done + [slot.bucket]) == multiset(done) + multiset{slot.bucket}
  {
    assert BucketsOf(still + [slot]) == BucketsOf(still) + [slot.bucket];
  }

  lemma ClosingNone(cfg: F.Config, slots: seq<F.Slot>, now: real)
    ensures F.StillOpen(cfg, slots[..0], now) == [] && F.ClosedBuckets(cfg, slots[..0], now) == []
  {
  }

  lemma ClosingOne(cfg: F.Config, slots: seq<F.Slot>, i: nat, now: real)
    requires i < |slots|
    ensures var closing := F.IsClosed(cfg, slots[i].bucket, now);
            F.StillOpen(cfg, slots[..i + 1], now) == F.StillOpen(cfg, slots[..i], now) + (if closing then [] else [slots[i]]) &&
            F.ClosedBuckets(cfg, slots[..i + 1], now)
            == F.ClosedBuckets(cfg, slots[..i], now) + if closing then [slots[i].bucket] else []
  {
    hide F.IsClosed;
    assert slots[..i + 1][..i] == slots[..i];
  }

  lemma NewSightings(key: Wire, s: Sighting)
    ensures F.NewBucket(key, s).sightings == [s]
  {
  }

  lemma OpenSane(st: F.FusionState, slot: F.Slot)
    requires F.Sane(st) && slot.bucket.sightings != []
    ensures F.Sane(st.(open := st.open + [slot]))
  {
    assert F.Buckets(st.open + [slot]) == F.Buckets(st.open) + [slot.bucket];
  }

  lemma RetireSane(st: F.FusionState, i: nat)
    requires F.Sane(st) && i < |st.open|
    ensures F.Sane(st.(open := st.open[..i] + st.open[i + 1..], ready := st.ready + [st.open[i].bucket]))
  {
    assert F.Buckets(st.open[..i] + st.open[i + 1..]) == F.Buckets(st.open)[..i] + F.Buckets(st.open)[i + 1..];
    assert F.Buckets(st.open)[i].sightings != [];
  }

  lemma RetireViews(open: seq<OpenSlot>, ready: seq<Bucket>, i: nat)
    requires i < |open|
    ensures var rest := open[..i] + open[i + 1..];
            Slots(rest) == Slots(open)[..i] + Slots(open)[i + 1..] &&
            BucketsOf(rest) == BucketsOf(open)[..i] + BucketsOf(open)[i + 1..] &&
            States(ready + [open[i].bucket]) == States(ready) + [open[i].bucket.State()]
  {
  }

  lemma RetirePermutes(open: seq<Bucket>, ready: seq<Bucket>, i: nat)
    requires i < |open|
    ensures multiset((open[..i] + open[i + 1..]) + (ready + [open[i]])) == multiset(open + ready)
  {
    assert open == open[..i] + [open[i]] + open[i + 1..];
  }

  lemma SameObjects(a: seq<Bucket>, b: seq<Bucket>)
    requires multiset(a) == multiset(b)
    ensures (set x | x in a) == (set x | x in b)
    ensures forall i :: 0 <= i < |a| ==> a[i] in b
  {
    assert forall x :: x in a <==> x in multiset(a);
    assert forall x :: x in b <==> x in multiset(b);
  }

  lemma SameConfig(a: seq<Bucket>, b: seq<Bucket>, cfg: F.Config)
    requires multiset(a) == multiset(b) && forall i :: 0 <= i < |a| ==> a[i].cfg == cfg
    ensures forall i :: 0 <= i < |b| ==> b[i].cfg == cfg
  {
    forall i | 0 <= i < |b| ensures b[i].cfg == cfg {
      assert b[i] in multiset(b);
      assert b[i] in a;
    }
  }

  lemma DistinctInsert(a: seq<Bucket>, b: Bucket, c: seq<Bucket>)
    requires Distinct(a + c) && b !in a + c
    ensures Distinct(a + [b] + c)
  {
    var all, with := a + c, a + [b] + c;
    forall i, j | 0 <= i < j < |with| ensures with[i] != with[j] {
      assert forall k :: 0 <= k < |with| && k != |a| ==> with[k] == all[if k < |a| then k else k - 1];
    }
  }
}
