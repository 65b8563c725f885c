/** Streaming I/Q: overlapping demodulation passes that between them judge every sample once. */
module Streaming {
  import opened Common

  /** A sample is two bytes, I and Q. */
  function Samples(bytes: nat): nat { bytes / 2 }

  predicate Even(bytes: nat) { bytes % 2 == 0 }

  /** What of this many bytes is whole samples. */
  function Whole(bytes: nat): nat { bytes - bytes % 2 }

  lemma SamplesOf(bytes: nat)
    ensures Even(bytes) ==> 2 * Samples(bytes) == bytes == Whole(bytes)
    ensures Even(Whole(bytes)) && Samples(Whole(bytes)) == Samples(bytes) && Whole(bytes) <= bytes <= Whole(bytes) + 1
    ensures bytes < 2 ==> Samples(bytes) == 0
  {
  }

  lemma EvenSum(a: nat, b: nat)
    requires Even(a) && Even(b)
    ensures Even(a + b) && Samples(a + b) == Samples(a) + Samples(b)
    ensures a >= b ==> Even(a - b) && Samples(a - b) == Samples(a) - Samples(b)
  {
  }

  // ------------------------------------------------------------------ the reader thread

  /** A chunk of whole I/Q pairs and the stream index of its first sample. */
  datatype Item = Item(chunk: seq<byte>, first: nat)

  /** What the reader carries between reads: samples read so far, and half a pair. */
  datatype Reader = Reader(pos: nat, carry: seq<byte>)

  /** One read: whole pairs go out, an odd byte waits for the next. */
  function ReadStep(r: Reader, chunk: seq<byte>): (out: (Reader, Item)) {
    var whole := r.carry + chunk;
    var even := Whole(|whole|);
    (Reader(r.pos + Samples(even), whole[even..]), Item(whole[..even], r.pos))
  }

  function ReaderAfter(input: seq<seq<byte>>): Reader {
    if input == [] then Reader(0, []) else ReadStep(ReaderAfter(input[..|input| - 1]), input[|input| - 1]).0
  }

  /** What is put on the queue: everything, or for a live source whatever it has room for at the time. */
  function Queued(input: seq<seq<byte>>, full: seq<bool>): seq<Item>
    requires |full| == |input|
  {
    if input == [] then []
    else
      var n := |input| - 1;
      Queued(input[..n], full[..n])
      + if full[n] then [] else [ReadStep(ReaderAfter(input[..n]), input[n]).1]
  }

  function Dropped(full: seq<bool>): nat {
    if full == [] then 0 else Dropped(full[..|full| - 1]) + if full[|full| - 1] then 1 else 0
  }

  /** The puts that find the queue full. */
  ghost function Refused(full: seq<bool>): set<nat> { set i: nat | i < |full| && full[i] }

  /** Every chunk is put on the queue or counted as dropped, and the count is of the puts that found it full. */
  lemma {:induction false} DroppedCounted(input: seq<seq<byte>>, full: seq<bool>)
    requires |full| == |input|
    ensures |Queued(input, full)| + Dropped(full) == |input|
    ensures Dropped(full) == |Refused(full)|
  {
    if full == [] {
      assert Refused(full) == {};
    } else {
      var n := |full| - 1;
      DroppedCounted(input[..n], full[..n]);
      hide ReadStep;
      assert Refused(full) == Refused(full[..n]) + if full[n] then {n} else {};
    }
  }

  /** One turn of the reader: split off an odd trailing byte, and number what is left. */
  method ReadOne(r: Reader, read: seq<byte>) returns (after: Reader, item: Item)
    ensures (after, item) == ReadStep(r, read)
  {
    var chunk, carry := r.carry + read, [];
    if |chunk| % 2 == 1 {
      carry := chunk[|chunk| - 1..];
      chunk := chunk[..|chunk| - 1];
    } else {
      assert chunk[|chunk|..] == [] && chunk[..|chunk|] == chunk;
    }
    after, item := Reader(r.pos + Samples(|chunk|), carry), Item(chunk, r.pos);
  }

  /** pump; `full` says which puts find the queue full, which a file's never do. */
  method Pump(input: seq<seq<byte>>, full: seq<bool>) returns (items: seq<Item>, droppedChunks: nat)
    requires |full| == |input|
    ensures items == Queued(input, full) && droppedChunks == Dropped(full)
  {
    hide ReadStep;
    items, droppedChunks := [], 0;
    var reader := Reader(0, []);
    for i := 0 to |input|
      invariant items == Queued(input[..i], full[..i]) && droppedChunks == Dropped(full[..i])
      invariant reader == ReaderAfter(input[..i])
    {
      assert input[..i + 1][..i] == input[..i] && full[..i + 1][..i] == full[..i];
      var item;
      reader, item := ReadOne(reader, input[i]);
      if full[i] {
        droppedChunks := droppedChunks + 1;
      } else {
        items := items + [item];
      }
    }
    assert input[..|input|] == input && full[..|full|] == full;
  }

  // ------------------------------------------------------------------ the passes

  /** The starts a pass keeps bursts for, how far its samples reach, and the samples. */
  datatype Claim = Claim(from: nat, to: nat, seen: nat, final: bool, data: seq<byte>)

  /** _pass: what it claims. */
  function Pass(buf: seq<byte>, base: nat, final: bool, keep: nat): seq<Claim>
    requires final || keep <= |buf|
  {
    if |buf| < 2 then []
    else [Claim(base, base + Samples(if final then |buf| else |buf| - keep), base + Samples(|buf|), final, buf)]
  }

  /**
   * Whether a pass yields a burst that starts at this sample, if it finds it: the start is its to judge, and it is not a
   * run without a header that goes past the end of the buffer and is still arriving.
   */
  predicate Yields(c: Claim, start: nat, header: bool, end: nat) {
    c.from <= start < c.to && (header || c.final || end < c.seen)
  }

  datatype Demod = Demod(buf: seq<byte>, base: nat, claims: seq<Claim>)

  const IDLE: Demod := Demod([], 0, [])

  /** A gap before this chunk finishes what is buffered. */
  function AtGap(d: Demod, item: Item): Demod {
    if d.buf != [] && item.first != d.base + Samples(|d.buf|) then Demod([], d.base, d.claims + Pass(d.buf, d.base, true, 0)) else d
  }

  function Appended(d: Demod, item: Item): Demod {
    d.(base := if d.buf == [] then item.first else d.base, buf := d.buf + item.chunk)
  }

  /** With a hop and an overlap in hand, a pass; the overlap stays for the next. */
  function Hopped(hop: nat, overlap: nat, d: Demod): Demod {
    if |d.buf| < hop + overlap then d
    else
      var cut := Whole(|d.buf| - overlap);
      Demod(d.buf[cut..], d.base + Samples(cut), d.claims + Pass(d.buf, d.base, false, overlap))
  }

  function Feed(hop: nat, overlap: nat, d: Demod, item: Item): Demod {
    Hopped(hop, overlap, Appended(AtGap(d, item), item))
  }

  function FeedAll(hop: nat, overlap: nat, items: seq<Item>): Demod {
    if items == [] then IDLE else Feed(hop, overlap, FeedAll(hop, overlap, items[..|items| - 1]), items[|items| - 1])
  }

  /** The claims of a whole stream: the end of it finishes what is left. */
  function Claims(hop: nat, overlap: nat, items: seq<Item>): seq<Claim> {
    var d := FeedAll(hop, overlap, items);
    d.claims + Pass(d.buf, d.base, true, 0)
  }

  /** What arrives with one chunk: the pass that ends a stretch, if there is a gap, then a hop, if there is one. */
  method TakeChunk(hop: nat, overlap: nat, d: Demod, item: Item) returns (after: Demod)
    ensures after == Feed(hop, overlap, d, item)
  {
    hide Pass, Samples;
    var buf, base, claims := d.buf, d.base, d.claims;
    if buf != [] && item.first != base + Samples(|buf|) {
      claims := claims + Pass(buf, base, true, 0);
      buf := [];
    }
    if buf == [] {
      base := item.first;
    }
    buf := buf + item.chunk;
    if |buf| >= hop + overlap {
      claims := claims + Pass(buf, base, false, overlap);
      var cut := |buf| - overlap;
      SamplesOf(cut);
      cut := Whole(cut);
      buf := buf[cut..];
      base := base + Samples(cut);
    }
    after := Demod(buf, base, claims);
  }

  /** _iter_numpy, with each pass standing for the bursts it yields. */
  method IterNumpy(hop: nat, overlap: nat, items: seq<Item>) returns (claims: seq<Claim>)
    ensures claims == Claims(hop, overlap, items)
  {
    hide Pass, Feed;
    var d := IDLE;
    for i := 0 to |items|
      invariant d == FeedAll(hop, overlap, items[..i])
    {
      assert items[..i + 1][..i] == items[..i];
      d := TakeChunk(hop, overlap, d, items[i]);
    }
    assert items[..|items|] == items;
    claims := d.claims + Pass(d.buf, d.base, true, 0);
  }

  // ------------------------------------------------------------------ the reader keeps its place

  /** Everything read, end to end. */
  ghost function Stream(input: seq<seq<byte>>): seq<byte> {
    if input == [] then [] else Stream(input[..|input| - 1]) + input[|input| - 1]
  }

  /** An item is its place in the stream: the bytes of samples first, first + 1, ... */
  ghost predicate InPlace(stream: seq<byte>, item: Item) {
    Even(|item.chunk|) && 2 * item.first + |item.chunk| <= |stream| &&
    item.chunk == stream[2 * item.first..2 * item.first + |item.chunk|]
  }

  function End(item: Item): nat { item.first + Samples(|item.chunk|) }

  /** In stream order, without overlaps. */
  ghost predicate Ascending(items: seq<Item>) {
    forall i, j :: 0 <= i < j < |items| ==> End(items[i]) <= items[j].first
  }

  lemma ReadKeepsPlace(stream: seq<byte>, r: Reader, chunk: seq<byte>)
    requires 2 * r.pos + |r.carry| == |stream| && r.carry == stream[2 * r.pos..] && |r.carry| < 2
    ensures var (after, item) := ReadStep(r, chunk);
            var longer := stream + chunk;
            2 * after.pos + |after.carry| == |longer| && after.carry == longer[2 * after.pos..] && |after.carry| < 2 &&
            InPlace(longer, item) && item.first == r.pos && End(item) == after.pos
  {
    hide Whole, Samples, Even;
    var whole := r.carry + chunk;
    SamplesOf(|whole|);
    SamplesOf(Whole(|whole|));
    var longer := stream + chunk;
    assert longer[2 * r.pos..] == whole;
    SliceOf(longer, 2 * r.pos, Whole(|whole|));
  }

  lemma SliceOf(s: seq<byte>, i: nat, n: nat)
    requires i + n <= |s|
    ensures s[i..][n..] == s[i + n..] && s[i..][..n] == s[i..i + n]
  {
  }

  lemma {:induction false} ReaderKeepsPlace(input: seq<seq<byte>>)
    ensures var r, s := ReaderAfter(input), Stream(input);
            2 * r.pos + |r.carry| == |s| && r.carry == s[2 * r.pos..] && |r.carry| < 2
  {
    if input != [] {
      ReaderKeepsPlace(input[..|input| - 1]);
      ReadKeepsPlace(Stream(input[..|input| - 1]), ReaderAfter(input[..|input| - 1]), input[|input| - 1]);
    }
    hide ReadStep;
  }

  /** However the reads split pairs, and whatever is dropped, each queued chunk is its place in the stream, in order. */
  lemma {:induction false} ItemsInPlace(input: seq<seq<byte>>, full: seq<bool>)
    requires |full| == |input|
    ensures var items := Queued(input, full);
            (forall i :: 0 <= i < |items| ==> InPlace(Stream(input), items[i]) && End(items[i]) <= ReaderAfter(input).pos) &&
            Ascending(items)
  {
    hide ReadStep, InPlace, Samples, Even, Whole;
    if input != [] {
      var n := |input| - 1;
      ItemsInPlace(input[..n], full[..n]);
      ReaderKeepsPlace(input[..n]);
      ReadKeepsPlace(Stream(input[..n]), ReaderAfter(input[..n]), input[n]);
      var before := Queued(input[..n], full[..n]);
      forall i | 0 <= i < |before| ensures InPlace(Stream(input), before[i]) {
        StillInPlace(Stream(input[..n]), input[n], before[i]);
      }
    }
  }

  lemma StillInPlace(stream: seq<byte>, more: seq<byte>, item: Item)
    requires InPlace(stream, item)
    ensures InPlace(stream + more, item)
  {
  }

  // ------------------------------------------------------------------ every sample claimed once

  ghost predicate Delivered(items: seq<Item>, s: nat) {
    exists i :: 0 <= i < |items| && items[i].first <= s < End(items[i])
  }

  ghost predicate Claimed(claims: seq<Claim>, s: nat) {
    exists i :: 0 <= i < |claims| && claims[i].from <= s < claims[i].to
  }

  predicate Buffered(d: Demod, s: nat) { d.base <= s < d.base + Samples(|d.buf|) }

  ghost predicate ClaimsInOrder(claims: seq<Claim>, edge: nat) {
    (forall i :: 0 <= i < |claims| ==> claims[i].from <= claims[i].to <= edge) &&
    forall i, j :: 0 <= i < j < |claims| ==> claims[i].to <= claims[j].from
  }

  /** A claim knows its samples, and a pass that is not the last of its stretch has the overlap after every start. */
  ghost predicate WellClaimed(stream: seq<byte>, overlap: nat, c: Claim) {
    c.to <= c.seen && 2 * c.seen <= |stream| && c.from <= c.seen && c.data == stream[2 * c.from..2 * c.seen] &&
    (if c.final then c.to == c.seen else 2 * c.to + overlap <= 2 * c.seen)
  }

  /** Between chunks: claims and buffer are, together and apart, what has been delivered. */
  ghost predicate Kept(stream: seq<byte>, overlap: nat, items: seq<Item>, d: Demod, edge: nat) {
    Even(|d.buf|) && 2 * d.base + |d.buf| <= |stream| && d.buf == stream[2 * d.base..2 * d.base + |d.buf|] &&
    (forall s: nat :: Delivered(items, s) <==> Claimed(d.claims, s) || Buffered(d, s)) &&
    ClaimsInOrder(d.claims, if d.buf == [] then edge else d.base) && (d.buf != [] ==> d.base + Samples(|d.buf|) == edge) &&
    forall i :: 0 <= i < |d.claims| ==> WellClaimed(stream, overlap, d.claims[i])
  }

  lemma FinalPass(stream: seq<byte>, overlap: nat, items: seq<Item>, d: Demod, edge: nat)
    requires Kept(stream, overlap, items, d, edge)
    ensures Kept(stream, overlap, items, Demod([], d.base, d.claims + Pass(d.buf, d.base, true, 0)), edge)
  {
    hide Delivered, WellClaimed, Claimed, Samples, Even, Pass;
    var more := Pass(d.buf, d.base, true, 0);
    FinalIs(d);
    SamplesOf(0);
    SamplesOf(|d.buf|);
    forall s: nat ensures Claimed(d.claims + more, s) <==> Claimed(d.claims, s) || Buffered(d, s) {
      ClaimedConcat(d.claims, more, s);
      if more != [] {
        ClaimedOne(more[0], s);
      } else {
        assert d.claims + more == d.claims;
      }
    }
    if more != [] {
      FinalWell(stream, overlap, d);
    }
  }

  lemma FinalIs(d: Demod)
    ensures |d.buf| < 2 ==> Pass(d.buf, d.base, true, 0) == []
    ensures |d.buf| >= 2 ==> var seen := d.base + Samples(|d.buf|);
                             Pass(d.buf, d.base, true, 0) == [Claim(d.base, seen, seen, true, d.buf)]
  {
    hide Samples;
  }

  lemma FinalWell(stream: seq<byte>, overlap: nat, d: Demod)
    requires Even(|d.buf|) && |d.buf| >= 2 && 2 * d.base + |d.buf| <= |stream|
    requires d.buf == stream[2 * d.base..2 * d.base + |d.buf|]
    ensures WellClaimed(stream, overlap, Pass(d.buf, d.base, true, 0)[0])
  {
    hide Samples, Even, Whole;
    SamplesOf(|d.buf|);
  }

  lemma ClaimedConcat(a: seq<Claim>, b: seq<Claim>, s: nat)
    ensures Claimed(a + b, s) <==> Claimed(a, s) || Claimed(b, s)
  {
    var all := a + b;
    if Claimed(a, s) {
      var i :| 0 <= i < |a| && a[i].from <= s < a[i].to;
      assert all[i] == a[i];
    }
    if Claimed(b, s) {
      var i :| 0 <= i < |b| && b[i].from <= s < b[i].to;
      assert all[|a| + i] == b[i];
    }
  }

  lemma ClaimedOne(c: Claim, s: nat)
    ensures Claimed([c], s) <==> c.from <= s < c.to
  {
    assert [c][0] == c;
  }

  lemma DeliveredAppend(items: seq<Item>, item: Item, s: nat)
    ensures Delivered(items + [item], s) <==> Delivered(items, s) || item.first <= s < End(item)
  {
    var all := items + [item];
    if Delivered(items, s) {
      var i :| 0 <= i < |items| && items[i].first <= s < End(items[i]);
      assert all[i] == items[i];
    }
    assert all[|items|] == item;
  }

  /** After the gap check the chunk follows on, or starts afresh further on. */
  lemma AppendKept(stream: seq<byte>, overlap: nat, items: seq<Item>, d: Demod, edge: nat, item: Item)
    requires Kept(stream, overlap, items, d, edge) && InPlace(stream, item) && edge <= item.first
    requires d.buf != [] ==> item.first == edge
    ensures Kept(stream, overlap, items + [item], Appended(d, item), End(item))
  {
    hide Delivered, Claimed, WellClaimed, Samples, Even, Whole;
    var after := Appended(d, item);
    EvenSum(|d.buf|, |item.chunk|);
    SamplesOf(|d.buf|);
    SamplesOf(|item.chunk|);
    forall s: nat ensures Delivered(items + [item], s) <==> Claimed(after.claims, s) || Buffered(after, s) {
      DeliveredAppend(items, item, s);
    }
    assert d.buf != [] ==> stream[2 * d.base..2 * d.base + |d.buf|] + item.chunk == stream[2 * d.base..2 * d.base + |d.buf| + |item.chunk|];
    assert d.buf == [] ==> after.buf == item.chunk;
  }

  lemma HopKept(stream: seq<byte>, hop: nat, overlap: nat, items: seq<Item>, d: Demod, edge: nat)
    requires Even(overlap) && Kept(stream, overlap, items, d, edge)
    ensures Kept(stream, overlap, items, Hopped(hop, overlap, d), edge)
  {
    hide Delivered, WellClaimed, Claimed, Buffered, Samples, Even, Whole, Pass, Hopped, ClaimsInOrder;
    if hop + overlap > |d.buf| {
      NoHop(hop, overlap, d);
    } else {
      HopCounts(hop, overlap, d);
      var after := Hopped(hop, overlap, d);
      forall s: nat ensures Claimed(after.claims, s) || Buffered(after, s) <==> Claimed(d.claims, s) || Buffered(d, s) {
        HopMoves(hop, overlap, d, s);
      }
      Tail(stream, d.base, d.buf, after.base, after.buf);
      if |d.buf| >= 2 {
        HopWell(stream, overlap, d);
        OrderExtended(d.claims, Pass(d.buf, d.base, false, overlap)[0], d.base);
      } else {
        assert after.claims == d.claims;
        SamplesOf(|d.buf|);
      }
    }
  }

  lemma NoHop(hop: nat, overlap: nat, d: Demod)
    requires hop + overlap > |d.buf|
    ensures Hopped(hop, overlap, d) == d
  {
  }

  lemma OrderExtended(claims: seq<Claim>, c: Claim, base: nat)
    requires ClaimsInOrder(claims, base) && base <= c.from <= c.to
    ensures ClaimsInOrder(claims + [c], c.to)
  {
  }

  lemma Tail(stream: seq<byte>, base: nat, buf: seq<byte>, base': nat, buf': seq<byte>)
    requires 2 * base + |buf| <= |stream| && buf == stream[2 * base..2 * base + |buf|]
    requires base <= base' && 2 * (base' - base) <= |buf| && buf' == buf[2 * (base' - base)..]
    ensures 2 * base' + |buf'| <= |stream| && buf' == stream[2 * base'..2 * base' + |buf'|]
  {
  }

  /** A hop moves whole samples from the front of the buffer to its claim. */
  lemma HopCounts(hop: nat, overlap: nat, d: Demod)
    requires Even(overlap) && Even(|d.buf|) && |d.buf| >= hop + overlap
    ensures var after := Hopped(hop, overlap, d);
            var moved := Samples(|d.buf| - overlap);
            after.base == d.base + moved && 2 * moved <= |d.buf| && after.buf == d.buf[2 * moved..] && |after.buf| == overlap &&
            Even(|after.buf|) && after.base + Samples(|after.buf|) == d.base + Samples(|d.buf|) &&
            after.claims == d.claims + Pass(d.buf, d.base, false, overlap) &&
            (|d.buf| >= 2 ==> Pass(d.buf, d.base, false, overlap)
                              == [Claim(d.base, d.base + moved, d.base + Samples(|d.buf|), false, d.buf)]) &&
            (|d.buf| < 2 ==> Pass(d.buf, d.base, false, overlap) == [] && moved == 0)
  {
    hide Samples, Even, Whole;
    EvenSum(|d.buf|, overlap);
    SamplesOf(|d.buf| - overlap);
    SamplesOf(|d.buf|);
    SamplesOf(overlap);
  }

  lemma HopMoves(hop: nat, overlap: nat, d: Demod, s: nat)
    requires Even(overlap) && Even(|d.buf|) && |d.buf| >= hop + overlap
    ensures var after := Hopped(hop, overlap, d);
            Claimed(after.claims, s) || Buffered(after, s) <==> Claimed(d.claims, s) || Buffered(d, s)
  {
    hide Hopped, Pass, Claimed, Samples, Even, Whole;
    HopCounts(hop, overlap, d);
    var more := Pass(d.buf, d.base, false, overlap);
    ClaimedConcat(d.claims, more, s);
    if more != [] {
      ClaimedOne(more[0], s);
    } else {
      assert d.claims + more == d.claims;
    }
  }

  lemma HopWell(stream: seq<byte>, overlap: nat, d: Demod)
    requires Even(|d.buf|) && Even(overlap) && |d.buf| >= 2 && overlap <= |d.buf|
    requires 2 * d.base + |d.buf| <= |stream| && d.buf == stream[2 * d.base..2 * d.base + |d.buf|]
    ensures WellClaimed(stream, overlap, Pass(d.buf, d.base, false, overlap)[0])
  {
    hide Samples, Even, Whole;
    EvenSum(|d.buf|, overlap);
    SamplesOf(|d.buf| - overlap);
    SamplesOf(|d.buf|);
    SamplesOf(overlap);
  }

  function Edge(items: seq<Item>): nat { if items == [] then 0 else End(items[|items| - 1]) }

  lemma {:induction false} FeedKept(stream: seq<byte>, hop: nat, overlap: nat, items: seq<Item>)
    requires Even(overlap) && Ascending(items) && forall i :: 0 <= i < |items| ==> InPlace(stream, items[i])
    ensures Kept(stream, overlap, items, FeedAll(hop, overlap, items), Edge(items))
  {
    if items == [] {
      NothingFed(stream, overlap);
    } else {
      var n := |items| - 1;
      var front, item := items[..n], items[n];
      FeedKept(stream, hop, overlap, front);
      hide Kept, Feed, InPlace, Samples, Even;
      FeedOneKept(stream, hop, overlap, front, FeedAll(hop, overlap, front), item);
      assert front + [item] == items;
    }
  }

  lemma FeedOneKept(stream: seq<byte>, hop: nat, overlap: nat, front: seq<Item>, d: Demod, item: Item)
    requires Even(overlap) && Kept(stream, overlap, front, d, Edge(front)) && InPlace(stream, item) && Edge(front) <= item.first
    ensures Kept(stream, overlap, front + [item], Feed(hop, overlap, d, item), End(item))
  {
    hide Kept, Pass, InPlace, Appended, Hopped, Samples, Even, Whole, Edge, End;
    EndsTogether(stream, overlap, front, d);
    if d.buf != [] && item.first != d.base + Samples(|d.buf|) {
      FinalPass(stream, overlap, front, d, Edge(front));
    }
    AppendKept(stream, overlap, front, AtGap(d, item), Edge(front), item);
    HopKept(stream, hop, overlap, front + [item], Appended(AtGap(d, item), item), End(item));
  }

  lemma EndsTogether(stream: seq<byte>, overlap: nat, items: seq<Item>, d: Demod)
    requires Kept(stream, overlap, items, d, Edge(items))
    ensures d.buf != [] ==> d.base + Samples(|d.buf|) == Edge(items)
  {
  }

  lemma NothingFed(stream: seq<byte>, overlap: nat)
    ensures Kept(stream, overlap, [], IDLE, 0)
  {
  }

  /**
   * The passes partition the samples. For any sizes of read, odd ones included, and any chunks dropped: the ranges of
   * starts claimed are in order and do not overlap; a sample is claimed exactly when it was delivered; each pass works on
   * the very samples it claims, unbroken; and a pass that is not the last before a gap or the end has the whole overlap
   * after every start it claims.
   */
  lemma PassesPartition(hop: nat, overlap: nat, input: seq<seq<byte>>, full: seq<bool>, s: nat, k: nat)
    requires |full| == |input| && Even(overlap)
    ensures var items := Queued(input, full);
            var claims := Claims(hop, overlap, items);
            (Claimed(claims, s) <==> Delivered(items, s)) && ClaimsInOrder(claims, Edge(items)) &&
            (k < |claims| ==> WellClaimed(Stream(input), overlap, claims[k]))
  {
    hide InPlace, WellClaimed, Pass, Delivered, Claimed, Even, Whole;
    ItemsInPlace(input, full);
    var items := Queued(input, full);
    FeedKept(Stream(input), hop, overlap, items);
    var d := FeedAll(hop, overlap, items);
    FinalPass(Stream(input), overlap, items, d, Edge(items));
    var done := Demod([], d.base, Claims(hop, overlap, items));
    assert !Buffered(done, s);
  }

  // ------------------------------------------------------------------ when a pass is made

  /** A pass that finishes a stretch is followed by a gap, any other by the pass that carries on where it left off. */
  ghost predicate Linked(overlap: nat, c: Claim, next: nat) {
    if c.final then c.to < next else overlap > 0 ==> c.to == next
  }

  /** And a pass that is not the last of its stretch has a hop and an overlap in hand. */
  ghost predicate Chained(hop: nat, overlap: nat, claims: seq<Claim>) {
    (forall i, j :: 0 <= i && j == i + 1 < |claims| ==> Linked(overlap, claims[i], claims[j].from)) &&
    forall i :: 0 <= i < |claims| && !claims[i].final ==> |claims[i].data| >= hop + overlap
  }

  /** Between chunks the last pass links to the buffer, or to whatever may come. */
  ghost predicate LinksOn(overlap: nat, d: Demod, edge: nat) {
    d.claims != [] ==>
      var last := d.claims[|d.claims| - 1];
      if d.buf != [] then Linked(overlap, last, d.base) else if last.final then last.to < edge else overlap == 0
  }

  lemma ChainExtended(hop: nat, overlap: nat, claims: seq<Claim>, c: Claim)
    requires Chained(hop, overlap, claims) && (claims != [] ==> Linked(overlap, claims[|claims| - 1], c.from))
    requires c.final || |c.data| >= hop + overlap
    ensures Chained(hop, overlap, claims + [c])
  {
    hide Linked;
  }

  lemma GapLinks(hop: nat, overlap: nat, d: Demod, edge: nat, item: Item)
    requires Chained(hop, overlap, d.claims) && LinksOn(overlap, d, edge) && Even(|d.buf|) && edge <= item.first
    requires d.buf != [] ==> d.base + Samples(|d.buf|) == edge
    ensures var after := Appended(AtGap(d, item), item);
            Chained(hop, overlap, after.claims) && LinksOn(overlap, after, End(item))
  {
    hide Chained, Samples, Pass;
    FinalIs(d);
    if d.buf != [] && item.first != d.base + Samples(|d.buf|) {
      assert |d.buf| >= 2;
      ChainExtended(hop, overlap, d.claims, Pass(d.buf, d.base, true, 0)[0]);
    }
  }

  lemma HopLinks(hop: nat, overlap: nat, d: Demod, edge: nat)
    requires Chained(hop, overlap, d.claims) && LinksOn(overlap, d, edge) && Even(|d.buf|) && Even(overlap)
    ensures var after := Hopped(hop, overlap, d);
            Chained(hop, overlap, after.claims) && LinksOn(overlap, after, edge)
  {
    hide Chained, Samples, Pass, Hopped, LinksOn;
    if hop + overlap > |d.buf| {
      NoHop(hop, overlap, d);
    } else {
      HopCounts(hop, overlap, d);
      if |d.buf| >= 2 {
        PassLinks(hop, overlap, d, Hopped(hop, overlap, d), edge, Pass(d.buf, d.base, false, overlap)[0]);
      } else {
        NothingHops(overlap, d, Hopped(hop, overlap, d), edge);
      }
    }
  }

  lemma PassLinks(hop: nat, overlap: nat, d: Demod, after: Demod, edge: nat, c: Claim)
    requires Chained(hop, overlap, d.claims) && LinksOn(overlap, d, edge) && d.buf != [] && after.claims == d.claims + [c]
    requires c.from == d.base && !c.final && c.to == after.base && c.data == d.buf && |d.buf| >= hop + overlap
    requires |after.buf| == overlap
    ensures Chained(hop, overlap, after.claims) && LinksOn(overlap, after, edge)
  {
    ChainExtended(hop, overlap, d.claims, c);
    hide Chained;
  }

  lemma NothingHops(overlap: nat, d: Demod, after: Demod, edge: nat)
    requires LinksOn(overlap, d, edge) && d.buf == after.buf == [] && after.claims == d.claims
    ensures LinksOn(overlap, after, edge)
  {
  }

  lemma FeedLinks(stream: seq<byte>, hop: nat, overlap: nat, items: seq<Item>, d: Demod, item: Item)
    requires Even(overlap) && Kept(stream, overlap, items, d, Edge(items)) && Even(|item.chunk|) && Edge(items) <= item.first
    requires Chained(hop, overlap, d.claims) && LinksOn(overlap, d, Edge(items))
    ensures var after := Feed(hop, overlap, d, item);
            Chained(hop, overlap, after.claims) && LinksOn(overlap, after, End(item)) && (hop > 0 ==> |after.buf| < hop + overlap)
  {
    hide Kept, Chained, LinksOn, AtGap, Appended, Hopped, Samples, Even, Edge, End;
    KeptEven(stream, overlap, items, d);
    GapKeepsEven(d, item);
    GapLinks(hop, overlap, d, Edge(items), item);
    var next := Appended(AtGap(d, item), item);
    HopLinks(hop, overlap, next, End(item));
    if hop > 0 {
      HopShortens(hop, overlap, next);
    }
  }

  lemma {:induction false} FeedChained(stream: seq<byte>, hop: nat, overlap: nat, items: seq<Item>)
    requires Even(overlap) && Ascending(items) && forall i :: 0 <= i < |items| ==> InPlace(stream, items[i])
    ensures var d := FeedAll(hop, overlap, items);
            Chained(hop, overlap, d.claims) && LinksOn(overlap, d, Edge(items)) && (hop > 0 ==> |d.buf| < hop + overlap)
  {
    if items == [] {
    } else {
      var n := |items| - 1;
      FeedChained(stream, hop, overlap, items[..n]);
      FeedKept(stream, hop, overlap, items[..n]);
      hide Kept, Chained, LinksOn, Feed, Samples;
      FeedLinks(stream, hop, overlap, items[..n], FeedAll(hop, overlap, items[..n]), items[n]);
    }
  }

  lemma KeptEven(stream: seq<byte>, overlap: nat, items: seq<Item>, d: Demod)
    requires Kept(stream, overlap, items, d, Edge(items))
    ensures Even(|d.buf|) && (d.buf != [] ==> d.base + Samples(|d.buf|) == Edge(items))
  {
  }

  lemma GapKeepsEven(d: Demod, item: Item)
    requires Even(|d.buf|) && Even(|item.chunk|)
    ensures Even(|Appended(AtGap(d, item), item).buf|)
  {
  }

  lemma HopShortens(hop: nat, overlap: nat, d: Demod)
    requires Even(|d.buf|) && Even(overlap) && hop > 0
    ensures |Hopped(hop, overlap, d).buf| < hop + overlap
  {
    if hop + overlap <= |d.buf| {
      HopCounts(hop, overlap, d);
    }
  }

  lemma EndLinks(hop: nat, overlap: nat, d: Demod, edge: nat)
    requires Chained(hop, overlap, d.claims) && LinksOn(overlap, d, edge) && Even(|d.buf|)
    ensures Chained(hop, overlap, d.claims + Pass(d.buf, d.base, true, 0))
  {
    hide Chained, Samples, Pass;
    FinalIs(d);
    if |d.buf| >= 2 {
      ChainExtended(hop, overlap, d.claims, Pass(d.buf, d.base, true, 0)[0]);
    } else {
      assert d.claims + [] == d.claims;
    }
  }

  lemma ItemsChained(stream: seq<byte>, hop: nat, overlap: nat, items: seq<Item>)
    requires Even(overlap) && Ascending(items) && forall i :: 0 <= i < |items| ==> InPlace(stream, items[i])
    ensures Chained(hop, overlap, Claims(hop, overlap, items)) && (hop > 0 ==> |FeedAll(hop, overlap, items).buf| < hop + overlap)
  {
    hide Kept, Chained, LinksOn, InPlace, FeedAll, Pass, Edge, Ascending, Even;
    FeedChained(stream, hop, overlap, items);
    FeedKept(stream, hop, overlap, items);
    KeptEven(stream, overlap, items, FeedAll(hop, overlap, items));
    EndLinks(hop, overlap, FeedAll(hop, overlap, items), Edge(items));
  }

  /**
   * When a pass finishes a stretch and when it carries one on. A final pass is followed by a gap, or by nothing; one that is
   * not final had a hop and an overlap in hand, and the next begins where it left off, for any overlap at all. No more
   * than that is ever held back from one chunk to the next.
   */
  lemma PassesPaced(hop: nat, overlap: nat, input: seq<seq<byte>>, full: seq<bool>)
    requires |full| == |input| && Even(overlap)
    ensures var items := Queued(input, full);
            Chained(hop, overlap, Claims(hop, overlap, items)) && (hop > 0 ==> |FeedAll(hop, overlap, items).buf| < hop + overlap)
  {
    hide Chained, Claims, InPlace, Queued, Ascending, Stream, FeedAll, Even, End;
    ItemsInPlace(input, full);
    ItemsChained(Stream(input), hop, overlap, Queued(input, full));
  }

  /**
   * A burst is judged by exactly one pass. It keeps one with a header, and one without unless that runs past the end of what
   * a pass with more to come can see.
   */
  lemma JudgedOnce(hop: nat, overlap: nat, input: seq<seq<byte>>, full: seq<bool>, start: nat, header: bool, end: nat)
    returns (i: nat)
    requires |full| == |input| && Even(overlap) && Delivered(Queued(input, full), start)
    ensures var claims := Claims(hop, overlap, Queued(input, full));
            i < |claims| && claims[i].from <= start < claims[i].to &&
            (Yields(claims[i], start, header, end) <==> header || claims[i].final || end < claims[i].seen) &&
            forall j :: 0 <= j < |claims| && Yields(claims[j], start, header, end) ==> j == i
  {
    PassesPartition(hop, overlap, input, full, start, 0);
    hide Claims, Queued, Delivered, WellClaimed;
    var claims := Claims(hop, overlap, Queued(input, full));
    i :| 0 <= i < |claims| && claims[i].from <= start < claims[i].to;
  }

  /** With nothing dropped every whole sample read is claimed: no more than a last odd byte is left out. */
  lemma LosslessClaimsAll(hop: nat, overlap: nat, input: seq<seq<byte>>, full: seq<bool>, s: nat)
    requires |full| == |input| && Even(overlap) && forall i :: 0 <= i < |full| ==> !full[i]
    ensures Claimed(Claims(hop, overlap, Queued(input, full)), s) <==> s < Samples(|Stream(input)|)
  {
    PassesPartition(hop, overlap, input, full, s, 0);
    AllDelivered(input, full, s);
    ReaderKeepsPlace(input);
    hide Claimed, Delivered, Claims, Queued, Stream, ReaderAfter;
  }

  lemma {:induction false} AllDelivered(input: seq<seq<byte>>, full: seq<bool>, s: nat)
    requires |full| == |input| && forall i :: 0 <= i < |full| ==> !full[i]
    ensures Delivered(Queued(input, full), s) <==> s < ReaderAfter(input).pos
  {
    hide Delivered, ReadStep, Samples, Even, Whole;
    if input != [] {
      var n := |input| - 1;
      ReaderKeepsPlace(input[..n]);
      ReadKeepsPlace(Stream(input[..n]), ReaderAfter(input[..n]), input[n]);
      AllDelivered(input[..n], full[..n], s);
      DeliveredAppend(Queued(input[..n], full[..n]), ReadStep(ReaderAfter(input[..n]), input[n]).1, s);
    } else {
      NothingDelivered(s);
    }
  }

  lemma NothingDelivered(s: nat)
    ensures !Delivered([], s)
  {
  }
}
