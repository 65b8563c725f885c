/** What an event says about the copies it was built from. */
module FusionEvents {
  import opened Common
  import opened Packets
  import opened Combine
  import opened Fusion

  // ------------------------------------------------------------------ per receiver

  /** The copies one receiver contributed. */
  function CopiesFrom(ss: seq<Sighting>, r: string): seq<Sighting> {
    if ss == [] then []
    else CopiesFrom(ss[..|ss| - 1], r) + if ss[|ss| - 1].receiver == r then [ss[|ss| - 1]] else []
  }

  ghost predicate LoudestOf(ss: seq<Sighting>, rssi: Option<real>) {
    match rssi
    case None => forall i :: 0 <= i < |ss| ==> ss[i].rssi.None?
    case Some(x) => (exists i :: 0 <= i < |ss| && ss[i].rssi == rssi) &&
                    forall i :: 0 <= i < |ss| && ss[i].rssi.Some? ==> ss[i].rssi.value <= x
  }

  predicate UpTo(a: byte, b: byte) { a <= b }

  lemma UpToOrder(a: byte, b: byte, c: byte)
    ensures (a < b <==> !UpTo(b, a)) && (UpTo(a, b) || UpTo(b, a)) && (UpTo(a, b) && UpTo(b, c) ==> UpTo(a, c))
  {
  }

  ghost predicate MostHops(ss: seq<Sighting>, hops: byte) {
    (exists i :: 0 <= i < |ss| && ss[i].packet.HopsLeft() == hops) &&
    forall i :: 0 <= i < |ss| ==> UpTo(ss[i].packet.HopsLeft(), hops)
  }

  ghost predicate LeastHops(ss: seq<Sighting>, hops: byte) {
    (exists i :: 0 <= i < |ss| && ss[i].packet.HopsLeft() == hops) &&
    forall i :: 0 <= i < |ss| ==> UpTo(hops, ss[i].packet.HopsLeft())
  }

  /** A view is its receiver's copies: how many, whether one is good, the loudest and the least travelled. */
  ghost predicate ViewOf(ss: seq<Sighting>, v: ReceiverView) {
    v.copies == |ss| > 0 && (v.crcOk <==> exists i :: 0 <= i < |ss| && GoodCopy(ss[i])) && LoudestOf(ss, v.rssi) &&
    MostHops(ss, v.bestHops)
  }

  lemma FirstView(s: Sighting)
    ensures ViewOf([s], ReceiverView(s.receiver, 1, GoodCopy(s), s.rssi, s.packet.HopsLeft()))
  {
    hide GoodCopy;
    assert [s][0] == s;
  }

  lemma NextView(ss: seq<Sighting>, v: ReceiverView, s: Sighting)
    requires ViewOf(ss, v)
    ensures ViewOf(ss + [s], ReceiverView(v.name, v.copies + 1, v.crcOk || GoodCopy(s), BestRssi(v.rssi, s.rssi),
                                          if s.packet.HopsLeft() > v.bestHops then s.packet.HopsLeft() else v.bestHops))
  {
    hide GoodCopy;
    var all := ss + [s];
    assert all[|ss|] == s;
    assert forall i :: 0 <= i < |ss| ==> all[i] == ss[i];
  }

  /** Who has a view, in order of first copy. */
  predicate Heard(views: seq<ReceiverView>, r: string) { exists i | 0 <= i < |views| :: views[i].name == r }

  ghost predicate AllViews(ss: seq<Sighting>, views: seq<ReceiverView>) {
    (forall i :: 0 <= i < |views| ==> ViewOf(CopiesFrom(ss, views[i].name), views[i])) &&
    (forall i, j :: 0 <= i < j < |views| ==> views[i].name != views[j].name) &&
    forall r :: !Heard(views, r) ==> CopiesFrom(ss, r) == []
  }

  /** Putting a copy into the views changes its receiver's and no other. */
  lemma {:induction false} IntoViewsAt(views: seq<ReceiverView>, s: Sighting, i: nat)
    requires i < |IntoViews(views, s)| && forall j, k :: 0 <= j < k < |views| ==> views[j].name != views[k].name
    ensures |views| <= |IntoViews(views, s)| <= |views| + 1 && (|IntoViews(views, s)| == |views| <==> Heard(views, s.receiver))
    ensures i < |views| ==>
              IntoViews(views, s)[i] == if views[i].name != s.receiver then views[i] else
                var v := views[i];
                ReceiverView(v.name, v.copies + 1, v.crcOk || GoodCopy(s), BestRssi(v.rssi, s.rssi),
                             if s.packet.HopsLeft() > v.bestHops then s.packet.HopsLeft() else v.bestHops)
    ensures i == |views| ==> IntoViews(views, s)[i] == ReceiverView(s.receiver, 1, GoodCopy(s), s.rssi, s.packet.HopsLeft())
  {
    hide GoodCopy, BestRssi;
    if views != [] && views[0].name == s.receiver {
      assert Heard(views, s.receiver);
    } else if views != [] {
      var rest := views[1..];
      assert forall k :: 0 <= k < |rest| ==> rest[k] == views[k + 1];
      IntoViewsAt(rest, s, if i > 0 then i - 1 else 0);
      HeardInTail(views, s.receiver);
    }
  }

  lemma HeardInTail(views: seq<ReceiverView>, r: string)
    requires views != [] && views[0].name != r
    ensures Heard(views, r) <==> Heard(views[1..], r)
  {
    var rest := views[1..];
    assert forall k :: 0 <= k < |rest| ==> rest[k] == views[k + 1];
    if Heard(views, r) {
      var i :| 0 <= i < |views| && views[i].name == r;
      assert rest[i - 1].name == r;
    }
  }

  lemma CopiesFromLast(ss: seq<Sighting>, s: Sighting, r: string)
    ensures CopiesFrom(ss + [s], r) == CopiesFrom(ss, r) + if s.receiver == r then [s] else []
  {
    assert (ss + [s])[..|ss|] == ss;
  }

  lemma OneMoreIntoViews(ss: seq<Sighting>, views: seq<ReceiverView>, s: Sighting)
    requires AllViews(ss, views)
    ensures AllViews(ss + [s], IntoViews(views, s))
  {
    hide GoodCopy, BestRssi, ViewOf, IntoViews, CopiesFrom;
    var after := IntoViews(views, s);
    IntoViewsNonEmpty(views, s);
    IntoViewsAt(views, s, 0);
    forall i | 0 <= i < |after| ensures ViewOf(CopiesFrom(ss + [s], after[i].name), after[i]) &&
                                        (i < |views| ==> after[i].name == views[i].name) && (i == |views| ==> after[i].name == s.receiver)
    {
      IntoViewsAt(views, s, i);
      CopiesFromLast(ss, s, after[i].name);
      if i < |views| {
        if views[i].name == s.receiver {
          NextView(CopiesFrom(ss, views[i].name), views[i], s);
        } else {
          assert CopiesFrom(ss, views[i].name) + [] == CopiesFrom(ss, views[i].name);
        }
      } else {
        assert CopiesFrom(ss, s.receiver) + [s] == [s];
        FirstView(s);
      }
    }
    NewcomerHeard(views, after, s);
    forall r | !Heard(after, r) ensures CopiesFrom(ss + [s], r) == [] {
      CopiesFromLast(ss, s, r);
      HeardStays(views, after, r);
    }
  }

  lemma HeardStays(views: seq<ReceiverView>, after: seq<ReceiverView>, r: string)
    requires |views| <= |after| && forall i :: 0 <= i < |views| ==> after[i].name == views[i].name
    ensures Heard(views, r) ==> Heard(after, r)
  {
    if Heard(views, r) {
      var i :| 0 <= i < |views| && views[i].name == r;
      assert after[i].name == r;
    }
  }

  lemma NewcomerHeard(views: seq<ReceiverView>, after: seq<ReceiverView>, s: Sighting)
    requires |views| <= |after| && (|after| == |views| ==> Heard(views, s.receiver))
    requires forall i :: 0 <= i < |after| ==> after[i].name == if i < |views| then views[i].name else s.receiver
    ensures Heard(after, s.receiver)
  {
    if |after| == |views| {
      var i :| 0 <= i < |views| && views[i].name == s.receiver;
      assert after[i].name == s.receiver;
    } else {
      assert after[|views|].name == s.receiver;
    }
  }

  lemma IntoViewsNonEmpty(views: seq<ReceiverView>, s: Sighting)
    ensures IntoViews(views, s) != []
  {
  }

  /** An event's views are exactly its receivers, once each, and each says what its receiver's copies say. */
  lemma {:induction false} ViewsMeaning(ss: seq<Sighting>)
    ensures AllViews(ss, Views(ss))
  {
    hide AllViews, IntoViews;
    if ss == [] {
      NoViews();
    } else {
      ViewsMeaning(ss[..|ss| - 1]);
      OneMoreIntoViews(ss[..|ss| - 1], Views(ss[..|ss| - 1]), ss[|ss| - 1]);
      assert ss == ss[..|ss| - 1] + [ss[|ss| - 1]];
    }
  }

  lemma NoViews()
    ensures AllViews([], Views([]))
  {
  }

  // ------------------------------------------------------------------ the choices

  /** Louder; a copy without a signal report counts as one of -999 dBm. */
  predicate Louder(a: Option<real>, b: Option<real>) {
    match (a, b)
    case (Some(x), Some(y)) => x > y
    case (Some(x), None) => x > -999.0
    case (None, Some(y)) => y < -999.0
    case (None, None) => false
  }

  /** More hops left, or as many and louder. */
  predicate Outranks(hops: byte, rssi: Option<real>, otherHops: byte, otherRssi: Option<real>) {
    NumberFor(hops) > NumberFor(otherHops) || (hops == otherHops && Louder(rssi, otherRssi))
  }

  lemma CloserExactly(v: ReceiverView, w: ReceiverView)
    ensures Closer(v, w) <==> Outranks(v.bestHops, v.rssi, w.bestHops, w.rssi)
  {
    NumbersOrder(w.bestHops, v.bestHops);
    hide NumberFor;
  }

  /** Needing no repair comes first, then hops left, then the signal. */
  predicate Preferred(a: Sighting, b: Sighting) {
    (a.packet.corrected == 0 && b.packet.corrected > 0) ||
    ((a.packet.corrected == 0 <==> b.packet.corrected == 0) &&
     Outranks(a.packet.HopsLeft(), a.rssi, b.packet.HopsLeft(), b.rssi))
  }

  lemma BetterExactly(a: Sighting, b: Sighting)
    ensures BetterCopy(a, b) <==> Preferred(a, b)
  {
    NumbersOrder(b.packet.HopsLeft(), a.packet.HopsLeft());
    hide NumberFor, Packet.HopsLeft;
  }

  /** No view outranks the closest, which outranks every one before it. */
  lemma ClosestMeaning(views: seq<ReceiverView>) returns (at: nat)
    requires views != []
    ensures at < |views| && Closest(views) == views[at]
    ensures forall i :: 0 <= i < |views| ==> !Outranks(views[i].bestHops, views[i].rssi, views[at].bestHops, views[at].rssi)
    ensures forall i :: 0 <= i < at ==> Outranks(views[at].bestHops, views[at].rssi, views[i].bestHops, views[i].rssi)
  {
    hide Closer, Closest, Outranks;
    at := FirstOfClosest(views);
    forall i | 0 <= i < |views|
      ensures !Outranks(views[i].bestHops, views[i].rssi, views[at].bestHops, views[at].rssi) &&
              (i < at ==> Outranks(views[at].bestHops, views[at].rssi, views[i].bestHops, views[i].rssi))
    {
      CloserExactly(views[i], views[at]);
      CloserExactly(views[at], views[i]);
    }
  }

  lemma {:induction false} FirstOfClosest(views: seq<ReceiverView>) returns (at: nat)
    requires views != []
    ensures at < |views| && Closest(views) == views[at]
    ensures forall i :: 0 <= i < |views| ==> !Closer(views[i], views[at])
    ensures forall i :: 0 <= i < at ==> Closer(views[at], views[i])
  {
    hide Closer;
    var n := |views| - 1;
    if n == 0 {
      NotCloser(views[0]);
      at := 0;
    } else {
      at := FirstOfClosest(views[..n]);
      if Closer(views[n], views[at]) {
        forall i | 0 <= i < n ensures Closer(views[n], views[i]) {
          CloserOrder(views[n], views[at], views[i]);
        }
        forall i | 0 <= i < n ensures !Closer(views[i], views[n]) {
          CloserOrder(views[n], views[at], views[i]);
        }
        NotCloser(views[n]);
        at := n;
      }
    }
  }

  lemma NotCloser(v: ReceiverView)
    ensures !Closer(v, v)
  {
  }

  /** Closeness is a strict order whose ties are ties for all. */
  lemma CloserOrder(a: ReceiverView, b: ReceiverView, c: ReceiverView)
    requires Closer(a, b) && !Closer(c, b)
    ensures Closer(a, c) && !Closer(c, a)
  {
  }

  lemma BetterOrder(a: Sighting, b: Sighting, c: Sighting)
    requires BetterCopy(a, b) && !BetterCopy(c, b)
    ensures BetterCopy(a, c) && !BetterCopy(c, a)
  {
  }

  /** The copy the event takes its packet from: a good one, with none preferred among the good, and preferred to those before it. */
  lemma BestGoodMeaning(ss: seq<Sighting>) returns (at: nat)
    ensures BestGood(ss).None? <==> forall i :: 0 <= i < |ss| ==> !GoodCopy(ss[i])
    ensures BestGood(ss).Some? ==>
              at < |ss| && GoodCopy(ss[at]) && BestGood(ss).value == ss[at] &&
              (forall i :: 0 <= i < |ss| && GoodCopy(ss[i]) ==> !Preferred(ss[i], ss[at])) &&
              forall i :: 0 <= i < at && GoodCopy(ss[i]) ==> Preferred(ss[at], ss[i])
  {
    hide GoodCopy, BetterCopy, BestGood, Preferred;
    at := FirstOfBest(ss);
    if BestGood(ss).Some? {
      forall i | 0 <= i < |ss| && GoodCopy(ss[i])
        ensures !Preferred(ss[i], ss[at]) && (i < at ==> Preferred(ss[at], ss[i]))
      {
        BetterExactly(ss[i], ss[at]);
        BetterExactly(ss[at], ss[i]);
      }
    }
  }

  lemma {:induction false} FirstOfBest(ss: seq<Sighting>) returns (at: nat)
    ensures BestGood(ss).None? <==> forall i :: 0 <= i < |ss| ==> !GoodCopy(ss[i])
    ensures BestGood(ss).Some? ==>
              at < |ss| && GoodCopy(ss[at]) && BestGood(ss).value == ss[at] &&
              (forall i :: 0 <= i < |ss| && GoodCopy(ss[i]) ==> !BetterCopy(ss[i], ss[at])) &&
              forall i :: 0 <= i < at && GoodCopy(ss[i]) ==> BetterCopy(ss[at], ss[i])
  {
    hide GoodCopy, BetterCopy;
    at := 0;
    if ss != [] {
      var n := |ss| - 1;
      at := FirstOfBest(ss[..n]);
      if GoodCopy(ss[n]) {
        if BestGood(ss[..n]).None? || BetterCopy(ss[n], ss[at]) {
          forall i | 0 <= i < n && GoodCopy(ss[i]) ensures BetterCopy(ss[n], ss[i]) && !BetterCopy(ss[i], ss[n]) {
            assert ss[..n][i] == ss[i];
            BetterOrder(ss[n], ss[at], ss[i]);
          }
          NotBetterThanItself(ss[n]);
          at := n;
        }
      }
    }
  }

  lemma NotBetterThanItself(s: Sighting)
    ensures !BetterCopy(s, s)
  {
  }

  lemma HopsUnfold(ss: seq<Sighting>)
    requires ss != []
    ensures var n := |ss| - 1;
            var h := ss[n].packet.HopsLeft();
            if n == 0 then HopsMin(ss) == HopsMax(ss) == h
            else HopsMin(ss) == (if UpTo(HopsMin(ss[..n]), h) then HopsMin(ss[..n]) else h) &&
                 HopsMax(ss) == (if UpTo(h, HopsMax(ss[..n])) then HopsMax(ss[..n]) else h)
  {
    hide Packet.HopsLeft;
  }

  /** The hop range of the copies, both ends attained. */
  lemma {:induction false} HopsRange(ss: seq<Sighting>)
    requires ss != []
    ensures LeastHops(ss, HopsMin(ss)) && MostHops(ss, HopsMax(ss))
  {
    hide UpTo, HopsMin, HopsMax, Packet.HopsLeft;
    HopsUnfold(ss);
    var n := |ss| - 1;
    var h := ss[n].packet.HopsLeft();
    UpToOrder(h, h, h);
    if n > 0 {
      var front := ss[..n];
      HopsRange(front);
      UpToOrder(HopsMin(front), h, h);
      UpToOrder(h, HopsMax(front), h);
      assert forall k :: 0 <= k < n ==> ss[k] == front[k];
      forall k | 0 <= k < n
        ensures UpTo(HopsMin(ss), ss[k].packet.HopsLeft()) && UpTo(ss[k].packet.HopsLeft(), HopsMax(ss))
      {
        var g := front[k].packet.HopsLeft();
        UpToOrder(h, HopsMin(front), g);
        UpToOrder(g, HopsMax(front), h);
      }
    }
  }

  /**
   * A built event read back: its times and hop range are those of its copies; its packet is the best good copy when there
   * is one; otherwise, if combining is on and the copies combine to something, that; or failing that the first copy.
   */
  lemma EventMeaning(cfg: Config, b: BucketState)
    requires b.sightings != []
    ensures var e := Build(cfg, b);
            var ss := b.sightings;
            e.key == b.key && e.firstSeen == b.openedAt && e.lastSeen == b.lastAt && e.repeatIndex == 0 &&
            AllViews(ss, e.receivers) && e.receivers != [] && e.closest == Closest(e.receivers).name &&
            MostHops(ss, e.hopsMax) && LeastHops(ss, e.hopsMin) &&
            ((exists i :: 0 <= i < |ss| && GoodCopy(ss[i])) ==> !e.combined && BestGood(ss).Some? && e.packet == BestGood(ss).value.packet) &&
            (e.combined <==> cfg.allowCombine && CombineOf(ss).Some? && forall i :: 0 <= i < |ss| ==> !GoodCopy(ss[i])) &&
            (e.combined ==> CombineOf(ss) == Some(e.packet) && PassesAll(e.packet)) &&
            e.combinedFrom == (if e.combined then |ss| else 0) &&
            (!e.combined && BestGood(ss).None? ==> e.packet == ss[0].packet)
  {
    hide GoodCopy, AllViews, CombineOf, PassesAll, Views, Closest, HopsMin, HopsMax, BestGood;
    ViewsMeaning(b.sightings);
    ViewsNonEmpty(b.sightings);
    HopsRange(b.sightings);
    var at := BestGoodMeaning(b.sightings);
    var made := CombineExact(b.sightings);
  }
}
