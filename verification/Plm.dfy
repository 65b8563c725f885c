/** The modem's frame format and the hop-insensitive identity of a message. */
module Plm {
  import opened Common
  import opened Packets

  const PLM_STX: byte := 0x02
  const INP_STANDARD: byte := 0x50
  const INP_EXTENDED: byte := 0x51
  const EXT_PLM_DATA_LEN: nat := 14

  /** Why a packet cannot become a frame, or a frame cannot become a packet. */
  datatype PlmFormatError =
    | TooFewBytes | CountersRejected | ImpossibleHops | CrcMismatch | CrcMissing
    | FrameTooShort | BadStart | NotInbound | ExtendedBitDisagrees

  function FrameLen(extended: bool): nat { if extended then 25 else 11 }

  function Reverse3(b: seq<byte>): seq<byte>
    requires |b| == 3
  {
    [b[2], b[1], b[0]]
  }

  /** The frame for these bytes: sender first, then destination, then flags, command and data. */
  function FrameFor(data: Wire): seq<byte>
    requires |data| > CrcIndex(data)
  {
    var slot1, slot2 := Reverse3(data[1..4]), Reverse3(data[4..7]);
    var addresses := if IsGroupBroadcast(data[0]) then slot1 + slot2 else slot2 + slot1;
    [PLM_STX, if Extended(data) then INP_EXTENDED else INP_STANDARD] + addresses + [data[0], data[7], data[8]]
    + if Extended(data) then data[9..EXT_DATA_CRC_INDEX + 1] else []
  }

  /** to_plm_bytes */
  function ToPlm(pkt: Packet, validate: bool): Result<seq<byte>, PlmFormatError> {
    if |pkt.data| < CrcIndex(pkt.data) + 1 then Err(TooFewBytes)
    else if validate && pkt.indexOk == Some(false) then Err(CountersRejected)
    else if validate && !pkt.HopsOk() then Err(ImpossibleHops)
    else if validate && pkt.CrcOk() == Some(false) then Err(CrcMismatch)
    else if validate && pkt.CrcOk().None? then Err(CrcMissing)
    else Ok(FrameFor(pkt.data))
  }

  /** Packet._pad */
  function Pad(length: nat, extended: bool): seq<byte> {
    if extended then seq(Max(0, EXT_LEN - length), _ => 0xAA)
    else if length < STD_LEN then seq(STD_LEN - length - 1, _ => 0) + [0xAA]
    else []
  }

  /** The bytes before the CRC that a frame stands for. */
  function BodyFrom(raw: seq<byte>): Wire
    requires |raw| >= 9 && |raw| >= FrameLen(HasExt(raw[8]))
  {
    var fromWire, toWire := Reverse3(raw[2..5]), Reverse3(raw[5..8]);
    [raw[8]] + (if IsGroupBroadcast(raw[8]) then fromWire + toWire else toWire + fromWire)
    + raw[9..11] + if HasExt(raw[8]) then raw[11..11 + EXT_PLM_DATA_LEN] else []
  }

  /** from_plm_bytes */
  function FromPlm(raw: seq<byte>): Result<Packet, PlmFormatError> {
    if |raw| < 2 then Err(FrameTooShort)
    else if raw[0] != PLM_STX then Err(BadStart)
    else if raw[1] != INP_STANDARD && raw[1] != INP_EXTENDED then Err(NotInbound)
    else if |raw| < FrameLen(raw[1] == INP_EXTENDED) then Err(FrameTooShort)
    else if HasExt(raw[8]) != (raw[1] == INP_EXTENDED) then Err(ExtendedBitDisagrees)
    else
      var body := BodyFrom(raw);
      var withCrc := body + [PacketCrc(body)];
      Ok(Packet(withCrc + Pad(|withCrc|, HasExt(raw[8])), [], None, true, 0, None))
  }

  /** message_key: the bytes before the CRC, with the hops-left field masked out. */
  function MessageKey(pkt: Packet): Wire {
    var data := CrcBody(pkt.data);
    data[0 := data[0] & 0xF3]
  }

  // ------------------------------------------------------------------ properties

  /** A packet the conversion accepts with validation on. */
  ghost predicate Sound(pkt: Packet) {
    pkt.Verified() && pkt.HopsOk() && pkt.indexOk != Some(false)
  }

  /** A frame the modem would send: inbound code, length and extended bit agreeing, hops a transmitter can emit. */
  ghost predicate WellFormed(raw: seq<byte>) {
    |raw| >= 2 && raw[0] == PLM_STX && (raw[1] == INP_STANDARD || raw[1] == INP_EXTENDED) &&
    |raw| == FrameLen(raw[1] == INP_EXTENDED) && HasExt(raw[8]) == (raw[1] == INP_EXTENDED) && HopsLegal(raw[8])
  }

  /** Validation refuses exactly the unsound packets, and never lets a frame of the wrong length out. */
  lemma ToPlmAccepts(pkt: Packet)
    ensures ToPlm(pkt, true).Ok? <==> Sound(pkt)
    ensures forall v :: ToPlm(pkt, v).Ok? ==> |ToPlm(pkt, v).value| == FrameLen(pkt.Ext())
  {
    hide PacketCrc, HopsLegal, IsGroupBroadcast, HasExt;
  }

  lemma BodyOfFrame(data: Wire)
    requires |data| > CrcIndex(data)
    ensures |FrameFor(data)| == FrameLen(Extended(data)) && FrameFor(data)[8] == data[0]
    ensures BodyFrom(FrameFor(data)) == data[..CrcIndex(data)]
  {
    hide IsGroupBroadcast, HasExt;
  }

  lemma FrameOfBody(raw: seq<byte>, data: Wire)
    requires WellFormed(raw)
    requires |data| > CrcIndex(BodyFrom(raw)) == |BodyFrom(raw)| && data[..|BodyFrom(raw)|] == BodyFrom(raw)
    ensures |data| > CrcIndex(data) && FrameFor(data) == raw
  {
    hide IsGroupBroadcast, HasExt, HopsLegal;
    var body := BodyFrom(raw);
    assert body[0] == raw[8] == data[0];
    assert data[1..4] == body[1..4] && data[4..7] == body[4..7];
  }

  /** The packet read back is the packet converted, byte for byte up to and including the CRC. */
  lemma FromInvertsTo(pkt: Packet)
    requires Sound(pkt)
    ensures var frame := ToPlm(pkt, true);
            frame.Ok? && FromPlm(frame.value).Ok? &&
            var back := FromPlm(frame.value).value;
            var n := CrcIndex(pkt.data) + 1;
            |back.data| == FullLength(pkt.data) && back.data[..n] == pkt.data[..n] && back.Verified() &&
            MessageKey(back) == MessageKey(pkt)
  {
    hide BodyFrom, CrcFrom, HopsLegal, IsGroupBroadcast, HasExt;
    var data := pkt.data;
    var n := CrcIndex(data);
    BodyOfFrame(data);
    var back := FromPlm(FrameFor(data)).value;
    assert CrcBody(data[..n]) == data[..n];
    assert back.data[..n] == data[..n];
    assert CrcBody(back.data) == CrcBody(data);
  }

  /** Every well-formed frame survives the trip to a packet and back. */
  lemma ToInvertsFrom(raw: seq<byte>)
    requires WellFormed(raw)
    ensures FromPlm(raw).Ok? && Sound(FromPlm(raw).value) && ToPlm(FromPlm(raw).value, true) == Ok(raw)
  {
    hide CrcFrom, HopsLegal, IsGroupBroadcast, HasExt, FrameFor;
    var data := FromPlm(raw).value.data;
    var body := BodyFrom(raw);
    assert body[0] == raw[8];
    assert CrcIndex(body) == |body|;
    assert data[..|body|] == body;
    assert CrcBody(body) == body && CrcBody(data) == body;
    FrameOfBody(raw, data);
  }

  // ------------------------------------------------------------------ byte by byte

  /** Where the three sender bytes are on the wire, low byte first: in the "to" slot of a group broadcast, else in "from". */
  function SenderPlace(data: Wire): nat { if NumberFor(data[0]) >= 192 then 1 else 4 }

  lemma GroupByNumber(flags: byte)
    ensures IsGroupBroadcast(flags) <==> NumberFor(flags) >= 192
  {
  }

  /** The modem's frame, byte by byte: both addresses high byte first, the sender's before the other. */
  lemma FrameLayout(data: Wire)
    requires |data| > CrcIndex(data)
    ensures var f, s, t := FrameFor(data), SenderPlace(data), 5 - SenderPlace(data);
            |f| == (if Extended(data) then 25 else 11) && f[0] == 0x02 && f[1] == (if Extended(data) then 0x51 else 0x50) &&
            f[2] == data[s + 2] && f[3] == data[s + 1] && f[4] == data[s] &&
            f[5] == data[t + 2] && f[6] == data[t + 1] && f[7] == data[t] &&
            f[8] == data[0] && f[9] == data[7] && f[10] == data[8] && (Extended(data) ==> f[11..] == data[9..23])
  {
    GroupByNumber(data[0]);
    hide IsGroupBroadcast, HasExt, NumberFor;
  }

  /** A raw frame is taken exactly when it is an inbound one of its kind's length or more whose EXT bit agrees with its code. */
  lemma FromPlmExactly(raw: seq<byte>)
    ensures FromPlm(raw).Ok? <==>
            |raw| >= 11 && raw[0] == 0x02 && (raw[1] == 0x50 || raw[1] == 0x51) &&
            (raw[1] == 0x51 ==> |raw| >= 25) && (HasExt(raw[8]) <==> raw[1] == 0x51)
    ensures FromPlm(raw).Err? ==> FromPlm(raw).error == ComplaintAbout(raw)
  {
    hide HasExt, PacketCrc, BodyFrom, Pad;
  }

  /** What is wrong with a raw frame, the earliest fault first. */
  function ComplaintAbout(raw: seq<byte>): PlmFormatError {
    if |raw| >= 2 && raw[0] != 0x02 then BadStart
    else if |raw| >= 2 && raw[1] != 0x50 && raw[1] != 0x51 then NotInbound
    else if |raw| < 11 || (raw[1] == 0x51 && |raw| < 25) then FrameTooShort
    else ExtendedBitDisagrees
  }

  lemma PacketOfFrame(raw: seq<byte>)
    requires FromPlm(raw).Ok?
    ensures |raw| >= 11 && (HasExt(raw[8]) ==> |raw| >= 25)
    ensures var data, body := FromPlm(raw).value.data, BodyFrom(raw);
            body[0] == raw[8] && CrcIndex(body) == |body| && data == body + [PacketCrc(body)] + Pad(|body| + 1, HasExt(raw[8])) &&
            data[..|body|] == body && PacketCrc(data) == PacketCrc(body)
  {
    hide IsGroupBroadcast, HasExt, CrcFrom, Pad;
    var data := FromPlm(raw).value.data;
    var body := BodyFrom(raw);
    assert data[..|body|] == body;
    assert CrcBody(body) == body && CrcBody(data) == body;
  }

  lemma BodyLayout(raw: seq<byte>)
    requires |raw| >= 11 && (HasExt(raw[8]) ==> |raw| >= 25)
    ensures var body := BodyFrom(raw);
            var s := SenderPlace(body);
            body[s] == raw[4] && body[s + 1] == raw[3] && body[s + 2] == raw[2] &&
            body[5 - s] == raw[7] && body[6 - s] == raw[6] && body[7 - s] == raw[5] &&
            body[7] == raw[9] && body[8] == raw[10] && (HasExt(raw[8]) ==> body[9..23] == raw[11..25])
  {
    GroupByNumber(raw[8]);
    hide IsGroupBroadcast, HasExt, NumberFor;
    assert HasExt(raw[8]) ==> BodyFrom(raw)[9..23] == raw[11..25];
  }

  /** The packet it becomes, byte by byte, its CRC computed anew. */
  lemma FromPlmLayout(raw: seq<byte>)
    requires FromPlm(raw).Ok?
    ensures var data := FromPlm(raw).value.data;
            var s, n := SenderPlace(data), CrcIndex(data);
            Extended(data) == (raw[1] == 0x51) && |data| == FullLength(data) && data[0] == raw[8] &&
            data[s] == raw[4] && data[s + 1] == raw[3] && data[s + 2] == raw[2] &&
            data[5 - s] == raw[7] && data[6 - s] == raw[6] && data[7 - s] == raw[5] &&
            data[7] == raw[9] && data[8] == raw[10] && (Extended(data) ==> data[9..23] == raw[11..25]) &&
            data[n] == PacketCrc(data) && FromPlm(raw).value.Verified() &&
            forall k: nat :: n < k < |data| ==> data[k] == if Extended(data) || k == 12 then 0xAA else 0
  {
    hide HasExt, BodyFrom, PacketCrc, SenderPlace;
    FromPlmExactly(raw);
    PacketOfFrame(raw);
    BodyLayout(raw);
    var data, body := FromPlm(raw).value.data, BodyFrom(raw);
    assert forall k :: 0 <= k < |body| ==> data[k] == body[k];
    assert data[0] == body[0];
    SamePlace(data, body);
    assert HasExt(raw[8]) ==> data[9..23] == body[9..23];
  }

  lemma SamePlace(a: Wire, b: Wire)
    requires a[0] == b[0]
    ensures SenderPlace(a) == SenderPlace(b) && 1 <= SenderPlace(a) <= 4
  {
  }

  /** Why validation refuses a packet: the first of these that holds; a missing CRC byte is never the reason. */
  lemma ToPlmRefusal(pkt: Packet)
    ensures ToPlm(pkt, true) ==
            if |pkt.data| <= CrcIndex(pkt.data) then Err(TooFewBytes)
            else if pkt.indexOk == Some(false) then Err(CountersRejected)
            else if NumberFor(pkt.HopsLeft()) > NumberFor(pkt.MaxHops()) then Err(ImpossibleHops)
            else if !pkt.Verified() then Err(CrcMismatch)
            else Ok(FrameFor(pkt.data))
  {
    FlagsLayout(pkt);
    hide HasExt, NumberFor, PacketCrc, HopsLegal, FrameFor;
  }

  lemma MaskSplits(a: byte, b: byte)
    ensures a & 0xF3 == b & 0xF3 <==> a >> 4 == b >> 4 && a & 3 == b & 3
  {
  }

  /** For packets carrying every byte before the CRC, equal keys mean equal bytes but for hops-left, and conversely. */
  lemma KeyIdentity(p: Packet, q: Packet)
    requires |p.data| >= CrcIndex(p.data) && |q.data| >= CrcIndex(q.data)
    ensures MessageKey(p) == MessageKey(q) <==>
            CrcIndex(p.data) == CrcIndex(q.data) &&
            p.data[0] >> 4 == q.data[0] >> 4 && p.MaxHops() == q.MaxHops() &&
            p.data[1..CrcIndex(p.data)] == q.data[1..CrcIndex(q.data)]
  {
    hide HasExt;
    MaskSplits(p.data[0], q.data[0]);
    var kp, kq := MessageKey(p), MessageKey(q);
    assert kp[1..] == p.data[1..CrcIndex(p.data)] && kq[1..] == q.data[1..CrcIndex(q.data)];
    assert kp == [kp[0]] + kp[1..] && kq == [kq[0]] + kq[1..];
    hide MessageKey, CrcBody;
  }
}
