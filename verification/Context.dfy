/** Reading replies in the right command table: the tracker of outstanding queries. */
module Context {
  import opened Common
  import opened Packets

  /** Who asked whom what. */
  datatype Query = Query(sender: Address, target: Address, cmd1: byte)

  datatype Asked = Asked(at: real, extended: bool)

  datatype TrackerState = TrackerState(queries: map<Query, Asked>, resolved: nat, unresolved: nat)

  const NOTHING_ASKED: TrackerState := TrackerState(map[], 0, 0)

  /** The query a packet makes, if it is one. */
  function QueryOf(pkt: Packet): Option<Query> {
    if pkt.Cmd1().Some? && pkt.ToAddr().Some? && !pkt.Ack() && pkt.FromAddr().Some? then
      Some(Query(pkt.FromAddr().value, pkt.ToAddr().value, pkt.Cmd1().value))
    else None
  }

  /** The query a reply answers: the same command with the addresses swapped. */
  function AnswerTo(pkt: Packet): Option<Query> {
    if pkt.Cmd1().Some? && pkt.ToAddr().Some? && pkt.Ack() && pkt.FromAddr().Some? then
      Some(Query(pkt.ToAddr().value, pkt.FromAddr().value, pkt.Cmd1().value))
    else None
  }

  /** _expire */
  function Live(queries: map<Query, Asked>, window: real, now: real): map<Query, Asked> {
    map q | q in queries && now - queries[q].at <= window :: queries[q]
  }

  /** observe; the second part is the annotation it leaves, None when it leaves none. */
  function ObserveStep(window: real, st: TrackerState, pkt: Packet, now: real): (TrackerState, Option<bool>) {
    var live := Live(st.queries, window, now);
    var query, answer := QueryOf(pkt), AnswerTo(pkt);
    if query.Some? then (st.(queries := live[query.value := Asked(now, pkt.Ext())]), None)
    else if answer.None? then (st.(queries := live), None)
    else if answer.value in live then (st.(queries := live, resolved := st.resolved + 1), Some(live[answer.value].extended))
    else (st.(queries := live, unresolved := st.unresolved + 1), None)
  }

  class CommandTracker {
    const window: real
    var queries: map<Query, Asked>
    var resolved: nat
    var unresolved: nat

    ghost function State(): TrackerState
      reads this
    {
      TrackerState(queries, resolved, unresolved)
    }

    constructor (window: real)
      ensures this.window == window && State() == NOTHING_ASKED
    {
      this.window := window;
      queries, resolved, unresolved := map[], 0, 0;
    }

    /** `clock` is read only when the packet has no timestamp. */
    method Observe(pkt: Packet, clock: real) returns (ackOfExtended: Option<bool>)
      modifies this
      ensures var now := if pkt.timestamp.Some? then pkt.timestamp.value else clock;
              (State(), ackOfExtended) == ObserveStep(window, old(State()), pkt, now)
    {
      hide Live, HasExt, IsGroupBroadcast;
      ackOfExtended := None;
      var now := if pkt.timestamp.Some? then pkt.timestamp.value else clock;
      Expire(now);
      if pkt.Cmd1().None? || pkt.ToAddr().None? {
        return;
      }
      if pkt.Ack() {
        ackOfExtended := Annotate(pkt);
      } else if pkt.FromAddr().Some? {
        queries := queries[Query(pkt.FromAddr().value, pkt.ToAddr().value, pkt.Cmd1().value) := Asked(now, pkt.Ext())];
      }
    }

    method Annotate(pkt: Packet) returns (ackOfExtended: Option<bool>)
      requires pkt.Cmd1().Some? && pkt.ToAddr().Some?
      modifies this`resolved, this`unresolved
      ensures pkt.FromAddr().None? ==> ackOfExtended == None && State() == old(State())
      ensures pkt.FromAddr().Some? ==>
                var q := Query(pkt.ToAddr().value, pkt.FromAddr().value, pkt.Cmd1().value);
                if q in queries then ackOfExtended == Some(queries[q].extended) && State() == old(State()).(resolved := old(resolved) + 1)
                else ackOfExtended == None && State() == old(State()).(unresolved := old(unresolved) + 1)
    {
      ackOfExtended := None;
      if pkt.FromAddr().None? {
        return;
      }
      var key := Query(pkt.ToAddr().value, pkt.FromAddr().value, pkt.Cmd1().value);
      if key !in queries {
        unresolved := unresolved + 1;
        return;
      }
      ackOfExtended := Some(queries[key].extended);
      resolved := resolved + 1;
    }

    method Expire(now: real)
      modifies this`queries
      ensures queries == Live(old(queries), window, now)
    {
      var keys := queries.Keys;
      while keys != {}
        invariant keys <= queries.Keys <= old(queries).Keys
        invariant forall q :: q in queries ==> queries[q] == old(queries)[q]
        invariant forall q :: q in old(queries) && q !in keys ==> (q in queries <==> now - old(queries)[q].at <= window)
        decreases |keys|
      {
        var q :| q in keys;
        keys := keys - {q};
        if now - queries[q].at > window {
          queries := queries - {q};
        }
      }
    }
  }

  // ------------------------------------------------------------------ the table is the history

  /** A packet and the time it was observed at. */
  datatype Seen = Seen(pkt: Packet, at: real)

  ghost function ObserveAll(window: real, history: seq<Seen>): TrackerState {
    if history == [] then NOTHING_ASKED
    else
      var last := history[|history| - 1];
      ObserveStep(window, ObserveAll(window, history[..|history| - 1]), last.pkt, last.at).0
  }

  /** Where the latest packet making this query is. */
  ghost function LatestQuery(history: seq<Seen>, q: Query): (r: Option<nat>)
    ensures r.Some? ==> r.value < |history| && QueryOf(history[r.value].pkt) == Some(q)
    ensures r.Some? ==> forall j :: r.value < j < |history| ==> QueryOf(history[j].pkt) != Some(q)
    ensures r.None? ==> forall j :: 0 <= j < |history| ==> QueryOf(history[j].pkt) != Some(q)
  {
    if history == [] then None
    else if QueryOf(history[|history| - 1].pkt) == Some(q) then Some(|history| - 1)
    else LatestQuery(history[..|history| - 1], q)
  }

  /** No packet since has been stamped more than the window later. */
  ghost predicate Lasting(window: real, history: seq<Seen>, i: nat)
    requires i < |history|
  {
    forall j :: i < j < |history| ==> history[j].at - history[i].at <= window
  }

  /**
   * The table is exactly the history: a query is in it when, and only when, its latest occurrence has not been followed
   * by a packet stamped more than the window later, and then it holds that occurrence. No order of stamps is assumed.
   */
  lemma {:induction false} TableIsHistory(window: real, history: seq<Seen>, q: Query)
    ensures var table := ObserveAll(window, history).queries;
            var i := LatestQuery(history, q);
            (q in table <==> i.Some? && Lasting(window, history, i.value)) &&
            (q in table ==> table[q] == Asked(history[i.value].at, history[i.value].pkt.Ext()))
  {
    hide QueryOf, AnswerTo, HasExt;
    if history != [] {
      var n := |history| - 1;
      var last := history[n];
      TableIsHistory(window, history[..n], q);
      var i := LatestQuery(history[..n], q);
      if QueryOf(last.pkt) != Some(q) && i.Some? {
        assert Lasting(window, history, i.value) <==>
               Lasting(window, history[..n], i.value) && last.at - history[i.value].at <= window;
      }
    }
  }

  /** What a reply observed next, at `now`, is told. */
  lemma AnswerExact(window: real, history: seq<Seen>, pkt: Packet, now: real)
    requires AnswerTo(pkt).Some?
    ensures var told := ObserveStep(window, ObserveAll(window, history), pkt, now).1;
            var i := LatestQuery(history, AnswerTo(pkt).value);
            if i.Some? && Lasting(window, history, i.value) && now - history[i.value].at <= window
            then told == Some(history[i.value].pkt.Ext()) else told == None
  {
    TableIsHistory(window, history, AnswerTo(pkt).value);
    hide LatestQuery, ObserveAll, Lasting, HasExt, IsGroupBroadcast;
  }

  ghost predicate InOrder(history: seq<Seen>, now: real) {
    (forall i, j :: 0 <= i < j < |history| ==> history[i].at <= history[j].at) &&
    forall i :: 0 <= i < |history| ==> history[i].at <= now
  }

  /** With stamps that do not go back, only the age of the latest matching query counts. */
  lemma AnswerInOrder(window: real, history: seq<Seen>, pkt: Packet, now: real)
    requires AnswerTo(pkt).Some? && InOrder(history, now)
    ensures var told := ObserveStep(window, ObserveAll(window, history), pkt, now).1;
            var i := LatestQuery(history, AnswerTo(pkt).value);
            if i.Some? && now - history[i.value].at <= window then told == Some(history[i.value].pkt.Ext()) else told == None
  {
    AnswerExact(window, history, pkt, now);
    hide LatestQuery, ObserveAll, ObserveStep;
  }

  // ------------------------------------------------------------------ byte by byte

  /** A direct or cleanup message that is no reply, complete as far as its command byte. */
  ghost predicate IsQuery(pkt: Packet) {
    |pkt.data| >= 8 && NumberFor(pkt.MsgType()) < 6 && NumberFor(pkt.MsgType()) % 2 == 0
  }

  /** An acknowledgement or refusal. */
  ghost predicate IsAnswer(pkt: Packet) {
    |pkt.data| >= 8 && NumberFor(pkt.MsgType()) < 6 && NumberFor(pkt.MsgType()) % 2 == 1
  }

  /** The reply comes from where the query went, goes to where it came from, and repeats its command. */
  ghost predicate Answers(reply: Packet, query: Packet) {
    |reply.data| >= 8 && |query.data| >= 8 &&
    reply.data[4..7] == query.data[1..4] && reply.data[1..4] == query.data[4..7] && reply.data[7] == query.data[7]
  }

  lemma SameAddress(a: seq<byte>, b: seq<byte>)
    requires |a| == |b| == 3
    ensures AddressFromWire(a) == AddressFromWire(b) <==> a == b
  {
    if AddressFromWire(a) == AddressFromWire(b) {
      assert a[0] == b[0] && a[1] == b[1] && a[2] == b[2];
    }
  }

  lemma QueryFromBytes(pkt: Packet)
    ensures QueryOf(pkt).Some? <==> IsQuery(pkt)
    ensures AnswerTo(pkt).Some? <==> IsAnswer(pkt)
  {
    FlagsLayout(pkt);
    hide NumberFor, IsGroupBroadcast;
  }

  lemma MatchFromBytes(reply: Packet, query: Packet)
    requires IsAnswer(reply)
    ensures QueryOf(query) == AnswerTo(reply) <==> IsQuery(query) && Answers(reply, query)
  {
    QueryFromBytes(reply);
    QueryFromBytes(query);
    if IsQuery(query) {
      SameAddress(reply.data[4..7], query.data[1..4]);
      SameAddress(reply.data[1..4], query.data[4..7]);
    }
    hide NumberFor, IsGroupBroadcast, AddressFromWire;
  }

  /** Entry i is the latest query the reply answers. */
  ghost predicate LatestAsked(history: seq<Seen>, reply: Packet, i: int) {
    0 <= i < |history| && IsQuery(history[i].pkt) && Answers(reply, history[i].pkt) &&
    forall j :: i < j < |history| ==> !(IsQuery(history[j].pkt) && Answers(reply, history[j].pkt))
  }

  /**
   * What a packet observed next is told, from the bytes of the packets alone: a reply is told the EXT flag of the latest query
   * it answers, if that was no longer ago than the window and nothing stamped later than that came between; anything else,
   * and a reply without such a query, is told nothing.
   */
  lemma AnswerFromBytes(window: real, history: seq<Seen>, pkt: Packet, now: real)
    ensures var told := ObserveStep(window, ObserveAll(window, history), pkt, now).1;
            (forall i :: IsAnswer(pkt) && LatestAsked(history, pkt, i) && Lasting(window, history, i) && now - history[i].at <= window ==>
               told == Some(history[i].pkt.Ext())) &&
            (told.Some? ==> IsAnswer(pkt) && exists i ::
               LatestAsked(history, pkt, i) && Lasting(window, history, i) && now - history[i].at <= window)
  {
    hide ObserveAll, Lasting, HasExt, LatestQuery, Live, IsQuery, IsAnswer, Answers, QueryOf, AnswerTo;
    QueryFromBytes(pkt);
    if IsAnswer(pkt) {
      AnswerExact(window, history, pkt, now);
      LatestFromBytes(history, pkt);
    }
  }

  lemma LatestFromBytes(history: seq<Seen>, reply: Packet)
    requires IsAnswer(reply)
    ensures AnswerTo(reply).Some?
    ensures forall i :: LatestAsked(history, reply, i) <==> LatestQuery(history, AnswerTo(reply).value) == Some(i)
  {
    hide LatestQuery, IsQuery, IsAnswer, Answers, QueryOf, AnswerTo;
    QueryFromBytes(reply);
    forall j | 0 <= j < |history|
      ensures QueryOf(history[j].pkt) == AnswerTo(reply) <==> IsQuery(history[j].pkt) && Answers(reply, history[j].pkt)
    {
      MatchFromBytes(reply, history[j].pkt);
    }
  }

  ghost function Replies(history: seq<Seen>): nat {
    if history == [] then 0
    else Replies(history[..|history| - 1]) + if AnswerTo(history[|history| - 1].pkt).Some? then 1 else 0
  }

  /** The replies whose query the full history explains. */
  ghost function Explained(window: real, history: seq<Seen>): nat {
    if history == [] then 0
    else
      var front, last := history[..|history| - 1], history[|history| - 1];
      var i := if AnswerTo(last.pkt).Some? then LatestQuery(front, AnswerTo(last.pkt).value) else None;
      Explained(window, front) +
      if i.Some? && Lasting(window, front, i.value) && last.at - front[i.value].at <= window then 1 else 0
  }

  /** Both counters are exact, so together they count every complete reply once. */
  lemma {:induction false} CountersExact(window: real, history: seq<Seen>)
    ensures var st := ObserveAll(window, history);
            st.resolved == Explained(window, history) && st.resolved + st.unresolved == Replies(history)
  {
    if history != [] {
      var n := |history| - 1;
      var front, last := history[..n], history[n];
      CountersExact(window, front);
      if AnswerTo(last.pkt).Some? {
        AnswerExact(window, front, last.pkt, last.at);
        NotBoth(last.pkt);
      }
      hide LatestQuery, Lasting, QueryOf, AnswerTo, Live;
    }
  }

  lemma NotBoth(pkt: Packet)
    requires AnswerTo(pkt).Some?
    ensures QueryOf(pkt).None?
  {
  }
}
