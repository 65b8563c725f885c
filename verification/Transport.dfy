/** A burst over the wire: the header is stripped by the publisher and put back by the consumer. */
module Transport {
  import opened Common
  import opened Manchester
  import opened Packets
  import opened Framing
  import opened BitStrings
  import B64 = Base64

  type Soft = seq<real>

  const HEADER_SNAP: nat := 8
  const MAX_CAPTURE_BYTES: nat := 4096
  const SOFT_SCALE: int := 127

  const START_HEADER_INV: Bits := Invert(START_HEADER)

  /** The part of a message that carries the burst. */
  datatype Payload = Payload(syncWord: nat, b: string, s: Option<string>)

  datatype Capture = Capture(bits: Bits, soft: Option<Soft>)

  // ------------------------------------------------------------------ numbers and confidence as bytes

  /** The low `width` bits of a number, most significant first. */
  function BitsOfNumber(n: nat, width: nat): (r: Bits)
    ensures |r| == width
  {
    if width == 0 then [] else BitsOfNumber(n / 2, width - 1) + [n % 2 == 1]
  }

  function NumberOf(bits: Bits): nat {
    if bits == [] then 0 else 2 * NumberOf(bits[..|bits| - 1]) + if bits[|bits| - 1] then 1 else 0
  }

  lemma {:induction false} NumberRoundTrip(bits: Bits)
    ensures BitsOfNumber(NumberOf(bits), |bits|) == bits
  {
    if bits != [] {
      NumberRoundTrip(bits[..|bits| - 1]);
    }
  }

  /** numpy's rint: to nearest, halves to even. */
  function Rint(x: real): int {
    var down := x.Floor;
    if x - down as real < 0.5 || (x - down as real == 0.5 && down % 2 == 0) then down else down + 1
  }

  function Clip(q: int): int { Max(-SOFT_SCALE, Min(SOFT_SCALE, q)) }

  /** A signed byte. */
  function SignedByte(q: int): byte
    requires -128 <= q <= 127
  {
    (if q < 0 then q + 256 else q) as byte
  }

  function SignedValue(b: byte): int {
    if b < 128 then b as int else b as int - 256
  }

  function Quantised(x: real): int { Clip(Rint(x * SOFT_SCALE as real)) }

  /** soft_to_bytes */
  function SoftToBytes(soft: Soft): (r: seq<byte>)
    ensures |r| == |soft|
  {
    seq(|soft|, i requires 0 <= i < |soft| => SignedByte(Quantised(soft[i])))
  }

  /** soft_from_bytes */
  function SoftFromBytes(data: seq<byte>): (r: Soft)
    ensures |r| == |data|
  {
    seq(|data|, i requires 0 <= i < |data| => SignedValue(data[i]) as real / SOFT_SCALE as real)
  }

  /** hard_soft */
  function HardSoft(bits: Bits): (r: Soft)
    ensures |r| == |bits|
  {
    seq(|bits|, i requires 0 <= i < |bits| => if bits[i] then 1.0 else -1.0)
  }

  lemma SignedRoundTrip(q: int)
    requires -128 <= q <= 127
    ensures SignedValue(SignedByte(q)) == q
  {
  }

  lemma NumberOfByte(n: nat)
    requires n < 256
    ensures NumberFor(n as byte) == n
  {
  }

  /** As two's complement. */
  lemma SignedByteExactly(q: int)
    requires -128 <= q <= 127
    ensures NumberFor(SignedByte(q)) == if q < 0 then q + 256 else q
  {
    hide NumberFor;
    NumberOfByte(if q < 0 then q + 256 else q);
  }

  /** Rounding is off by at most half a step, so a confidence of at least that keeps its sign. */
  lemma QuantisationError(x: real)
    requires -1.0 <= x <= 1.0
    ensures -0.5 <= Quantised(x) as real - x * SOFT_SCALE as real <= 0.5
    ensures x * SOFT_SCALE as real > 0.5 ==> Quantised(x) > 0
    ensures x * SOFT_SCALE as real < -0.5 ==> Quantised(x) < 0
  {
  }

  /** Any confidence: to the nearest of the steps from -127 to 127, the even one of two equally near. */
  lemma QuantisedExactly(x: real)
    ensures var q := Quantised(x);
            -127 <= q <= 127 && (x >= 1.0 ==> q == 127) && (x <= -1.0 ==> q == -127) &&
            (-1.0 <= x <= 1.0 ==>
               -0.5 <= q as real - 127.0 * x <= 0.5 && (q as real - 127.0 * x == 0.5 || q as real - 127.0 * x == -0.5 ==> q % 2 == 0))
  {
  }

  // ------------------------------------------------------------------ publishing

  predicate IsHeader(bits: Bits, p: nat) { HeaderAt(bits, p) || InvHeaderAt(bits, p) }

  function Away(p: int, index: int): nat { if p < index then index - p else p - index }

  /** The exact header in [lo, hi) nearest to `index`; of two equally near, the earlier. */
  function HeaderNear(bits: Bits, index: nat, lo: nat, hi: nat): (r: Option<nat>)
    requires lo <= hi
    ensures r.Some? ==> lo <= r.value < hi && IsHeader(bits, r.value)
    ensures r.Some? ==> forall p: nat :: lo <= p < hi && IsHeader(bits, p) ==>
                          Away(r.value, index) < Away(p, index) || (Away(r.value, index) == Away(p, index) && r.value <= p)
    ensures r.None? ==> forall p: nat :: lo <= p < hi ==> !IsHeader(bits, p)
  {
    if lo == hi then None
    else
      var best := HeaderNear(bits, index, lo, hi - 1);
      if IsHeader(bits, hi - 1) && (best.None? || Away(hi - 1, index) < Away(best.value, index)) then Some(hi - 1) else best
  }

  /** Where the burst is cut, and the header the consumer is told to put back. */
  datatype Cut = Cut(header: Bits, pos: Option<nat>)

  function WrongSymbols(bits: Bits, p: nat, n: nat): nat
    requires n <= HEADER_LEN && p + HEADER_LEN <= |bits|
  {
    if n == 0 then 0 else WrongSymbols(bits, p, n - 1) + if bits[p + n - 1] != START_HEADER_INV[n - 1] then 1 else 0
  }

  predicate Usable(bits: Bits, index: Option<int>) { index.Some? && 0 <= index.value <= |bits| - HEADER_LEN }

  /** The candidates around the correlator's answer. */
  function SnapLow(index: int): nat { Max(0, index - HEADER_SNAP) }

  function SnapHigh(bits: Bits, index: int): int { Min(|bits| - HEADER_LEN, index + HEADER_SNAP) + 1 }

  function CutFor(bits: Bits, index: Option<int>): (c: Cut)
    ensures |c.header| == HEADER_LEN && (c.pos.Some? ==> c.pos.value + HEADER_LEN <= |bits|)
  {
    if Usable(bits, index) then
      var near := HeaderNear(bits, index.value, SnapLow(index.value), SnapHigh(bits, index.value));
      if near.Some? then Cut(bits[near.value..near.value + HEADER_LEN], near)
      else if WrongSymbols(bits, index.value, HEADER_LEN) > HEADER_LEN / 2 then Cut(START_HEADER, Some(index.value))
      else Cut(START_HEADER_INV, Some(index.value))
    else
      var pos, alt := Find(bits, START_HEADER_INV, 0), Find(bits, START_HEADER, 0);
      if alt.Some? && (pos.None? || alt.value < pos.value) then Cut(START_HEADER, alt) else Cut(START_HEADER_INV, pos)
  }

  /** The message for a burst already cut. */
  function PayloadFor(header: Bits, bits: Bits, soft: Option<Soft>): Payload {
    Payload(NumberOf(header), B64.Encode(BytesFromBits(bits)),
            if soft.Some? && |soft.value| >= |bits| then
              Some(B64.Encode(SoftToBytes(soft.value[..|bits|]) + seq(|Padding(bits)|, _ => 0)))
            else None)
  }

  function After(soft: Option<Soft>, cut: nat): Option<Soft> {
    if soft.None? then None else Some(soft.value[Min(cut, |soft.value|)..])
  }

  /** publish_capture */
  function Published(bits: Bits, soft: Option<Soft>, index: Option<int>): Payload {
    var c := CutFor(bits, index);
    if c.pos.None? then PayloadFor(c.header, bits, soft)
    else PayloadFor(c.header, bits[c.pos.value + HEADER_LEN..], After(soft, c.pos.value + HEADER_LEN))
  }

  lemma HeaderLengths()
    ensures |START_HEADER| == |START_HEADER_INV| == HEADER_LEN
  {
  }

  class MqttPublisher {
    var captures: nat

    constructor ()
      ensures captures == 0
    {
      captures := 0;
    }

    /** The nearest exact header, by going through the candidates. */
    method Snap(bits: Bits, index: nat) returns (near: Option<nat>)
      requires Usable(bits, Some(index))
      ensures near == HeaderNear(bits, index, SnapLow(index), SnapHigh(bits, index))
    {
      hide START_HEADER, PatternAt;
      near := None;
      var lo, hi := SnapLow(index), SnapHigh(bits, index);
      for i := lo to hi
        invariant near == HeaderNear(bits, index, lo, i)
      {
        if IsHeader(bits, i) && (near.None? || Away(i, index) < Away(near.value, index)) {
          near := Some(i);
        }
      }
    }

    method Wrong(bits: Bits, p: nat) returns (wrong: nat)
      requires p + HEADER_LEN <= |bits|
      ensures wrong == WrongSymbols(bits, p, HEADER_LEN)
    {
      wrong := 0;
      for n := 0 to HEADER_LEN
        invariant wrong == WrongSymbols(bits, p, n)
      {
        if bits[p + n] != START_HEADER_INV[n] {
          wrong := wrong + 1;
        }
      }
    }

    method PublishCapture(burst: Bits, confidence: Option<Soft>, index: Option<int>) returns (payload: Payload)
      modifies this
      ensures payload == Published(burst, confidence, index) && captures == old(captures) + 1
    {
      HeaderLengths();
      hide START_HEADER, PatternAt, Find, HeaderNear, WrongSymbols, PayloadFor, Invert;
      var bits, soft := burst, confidence;
      var header := START_HEADER_INV;
      var pos: Option<nat>;
      if index.Some? && 0 <= index.value <= |bits| - HEADER_LEN {
        pos := index;
        var near := Snap(bits, index.value);
        if near.Some? {
          pos, header := near, bits[near.value..near.value + HEADER_LEN];
        } else {
          var wrong := Wrong(bits, index.value);
          if wrong > HEADER_LEN / 2 {
            header := START_HEADER;
          }
        }
      } else {
        pos := Find(bits, START_HEADER_INV, 0);
        var alt := Find(bits, START_HEADER, 0);
        if alt.Some? && (pos.None? || alt.value < pos.value) {
          header, pos := START_HEADER, alt;
        }
      }
      if pos.Some? {
        var cut := pos.value + HEADER_LEN;
        bits := bits[cut..];
        if soft.Some? {
          soft := Some(soft.value[Min(cut, |soft.value|)..]);
        }
      }
      payload := PayloadFor(header, bits, soft);
      captures := captures + 1;
    }
  }

  // ------------------------------------------------------------------ consuming

  predicate StartsWithHeader(bits: Bits) { IsHeader(bits, 0) }

  /** with_sync_header, given a sync word. */
  function WithSyncHeader(bits: Bits, syncWord: nat): Bits {
    if StartsWithHeader(bits) then bits else BitsOfNumber(syncWord, HEADER_LEN) + bits
  }

  /** The confidence that came along, the restored header certain; None when it does not fit the bits. */
  function SoftFor(bits: Bits, fifo: Bits, s: Option<string>): Option<Soft>
    requires |fifo| <= |bits|
  {
    var raw := if s.Some? then B64.Decode(s.value) else None;
    if raw.Some? && |raw.value| == |fifo| then Some(HardSoft(bits[..|bits| - |fifo|]) + SoftFromBytes(raw.value)) else None
  }

  /** Capture.from_payload, the parts about the burst. */
  function FromPayload(p: Payload): Option<Capture> {
    var raw := B64.Decode(p.b);
    if raw.None? || raw.value == [] || |raw.value| > MAX_CAPTURE_BYTES then None
    else
      var fifo := BitsFromBytes(raw.value);
      var bits := WithSyncHeader(fifo, p.syncWord);
      Some(Capture(bits, SoftFor(bits, fifo, p.s)))
  }

  /**
   * A message is taken unless its base64 is none, or of nothing, or of more than 4096 bytes. The header goes back in front
   * unless there is one, and the confidence is used only if there is a byte of it for every bit.
   */
  lemma FromPayloadExactly(p: Payload)
    ensures var raw, got := B64.Decode(p.b), FromPayload(p);
            (got.None? <==> raw.None? || |raw.value| == 0 || |raw.value| > 4096) &&
            (got.Some? ==>
               var fifo := BitsFromBytes(raw.value);
               got.value.bits == (if IsHeader(fifo, 0) then fifo else BitsOfNumber(p.syncWord, 16) + fifo) &&
               (got.value.soft.Some? <==> p.s.Some? && B64.Decode(p.s.value).Some? && |B64.Decode(p.s.value).value| == 8 * |raw.value|) &&
               (got.value.soft.Some? ==> |got.value.soft.value| == |got.value.bits|))
  {
    hide B64.Decode, IsHeader, BitsFromBytes, BitsOfNumber, SoftFromBytes, HardSoft;
  }
}
