/** The packet codec: CRCs, packet fields, framing and the burst parser. */
module Packets {
  import opened Common
  import opened Manchester

  /** Wire bytes of a packet; every packet the program builds has a flags byte. */
  type Wire = d: seq<byte> | d != [] witness [0]

  const FRAME_BITS: nat := 28
  const MARKER_OFFSET: nat := 5
  const HEADER_LEN: nat := 16
  const STD_LEN: nat := 13
  const EXT_LEN: nat := 32
  const STD_CRC_INDEX: nat := 9
  const EXT_CRC_INDEX: nat := 23
  const EXT_DATA_CRC_INDEX: nat := 22

  /** START_HEADER = 1100111010101010: the end of the preamble, the first frame marker, and 9 symbols of index 31. */
  const START_HEADER: Bits := [true, true, false, false, true, true, true, false,
                               true, false, true, false, true, false, true, false]

  // ------------------------------------------------------------------ CRCs

  function CrcTable(nibble: byte): byte {
    match nibble
    case 0 => 0x00 case 1 => 0x30 case 2 => 0x60 case 3 => 0x50
    case 4 => 0xC0 case 5 => 0xF0 case 6 => 0xA0 case 7 => 0x90
    case 8 => 0x80 case 9 => 0xB0 case 10 => 0xE0 case 11 => 0xD0
    case 12 => 0x40 case 13 => 0x70 case 14 => 0x20 case _ => 0x10
  }

  function CrcReduce(x: byte): byte { x ^ CrcTable(x & 0x0F) }

  function CrcStep(r: byte, b: byte): byte { CrcReduce(r ^ b) }

  /** The table register after feeding `data` into `r`. */
  function CrcFrom(r: byte, data: seq<byte>): byte {
    if data == [] then r else CrcStep(CrcFrom(r, data[..|data| - 1]), data[|data| - 1])
  }

  lemma CrcAppend(r: byte, data: seq<byte>, b: byte)
    ensures CrcFrom(r, data + [b]) == CrcStep(CrcFrom(r, data), b)
  {
    assert (data + [b])[..|data|] == data;
  }

  predicate HasExt(flags: byte) { flags & 0x10 != 0 }

  predicate Extended(data: Wire) { HasExt(data[0]) }

  function CrcIndex(data: Wire): nat {
    if Extended(data) then EXT_CRC_INDEX else STD_CRC_INDEX
  }

  /** The bytes the packet CRC covers: everything before the CRC byte, or what there is of it. */
  function CrcBody(data: Wire): Wire {
    data[..Min(CrcIndex(data), |data|)]
  }

  function PacketCrc(data: Wire): byte { CrcFrom(0, CrcBody(data)) }

  /** pkt_crc */
  method ComputeCrc(data: Wire) returns (r: byte)
    ensures r == PacketCrc(data)
  {
    hide CrcStep, HasExt;
    var n := if HasExt(data[0]) then EXT_CRC_INDEX else STD_CRC_INDEX;
    var body := data[..Min(n, |data|)];
    r := 0;
    for i := 0 to |body|
      invariant r == CrcFrom(0, body[..i])
    {
      CrcAppend(0, body[..i], body[i]);
      assert body[..i + 1] == body[..i] + [body[i]];
      r := CrcStep(r, body[i]);
    }
    assert body[..|body|] == body;
  }

  /** Sum of a byte string modulo 256. */
  function ByteSum(data: seq<byte>): byte {
    if data == [] then 0 else ByteSum(data[..|data| - 1]) + data[|data| - 1]
  }

  /** ext_crc: two's complement of the sum of bytes 7 to 21. */
  function ExtCrc(data: Wire): byte {
    0 - ByteSum(data[Min(7, |data|)..Min(EXT_DATA_CRC_INDEX, |data|)])
  }

  // ------------------------------------------------------------------ what the data checksum says

  /** The number a byte stands for. */
  function NumberFor(x: byte): (n: nat)
    ensures n < 256
  {
    x as nat
  }

  /** Bytes added as integers. */
  function IntegerSum(data: seq<byte>): nat {
    if data == [] then 0 else IntegerSum(data[..|data| - 1]) + NumberFor(data[|data| - 1])
  }

  lemma Zero(x: byte)
    ensures NumberFor(x) == 0 <==> x == 0
  {
  }

  lemma OneDown(x: byte)
    requires x != 0
    ensures NumberFor(x - 1) == NumberFor(x) - 1
  {
  }

  lemma OneUp(x: byte)
    ensures NumberFor(x + 1) == if NumberFor(x) == 255 then 0 else NumberFor(x) + 1
  {
    if x != 0xFF {
      assert (x + 1) as nat == x as nat + 1;
    }
  }

  lemma Regroup(a: byte, b: byte)
    ensures a + b == (a + (b - 1)) + 1 && a + 0 == a && (b == 0 - a <==> a + b == 0)
  {
  }

  lemma NumbersOrder(a: byte, b: byte)
    ensures NumberFor(a) < NumberFor(b) <==> a < b
    ensures NumberFor(a) == NumberFor(b) <==> a == b
  {
  }

  lemma NextModulo(x: nat, y: nat, before: nat, next: nat)
    requires y > 0 && before == (x + (y - 1)) % 256 && next == if before == 255 then 0 else before + 1
    ensures next == (x + y) % 256
  {
  }

  function Plus(a: byte, b: byte): byte { a + b }

  lemma PlusZero(a: byte, b: byte)
    requires NumberFor(b) == 0
    ensures Plus(a, b) == a
  {
  }

  lemma PlusMore(a: byte, b: byte) returns (less: byte)
    requires NumberFor(b) > 0
    ensures NumberFor(less) == NumberFor(b) - 1
    ensures NumberFor(Plus(a, b)) == if NumberFor(Plus(a, less)) == 255 then 0 else NumberFor(Plus(a, less)) + 1
  {
    hide NumberFor;
    Zero(b);
    Regroup(a, b);
    OneDown(b);
    OneUp(a + (b - 1));
    less := b - 1;
  }

  lemma {:induction false} PlusAdds(a: byte, b: byte)
    ensures NumberFor(Plus(a, b)) == (NumberFor(a) + NumberFor(b)) % 256
    decreases NumberFor(b)
  {
    hide NumberFor, Plus;
    if NumberFor(b) == 0 {
      PlusZero(a, b);
    } else {
      var less := PlusMore(a, b);
      PlusAdds(a, less);
      NextModulo(NumberFor(a), NumberFor(b), NumberFor(Plus(a, less)), NumberFor(Plus(a, b)));
    }
  }

  /** Bytes add modulo 256. */
  lemma ByteAdds(a: byte, b: byte)
    ensures NumberFor(a + b) == (NumberFor(a) + NumberFor(b)) % 256
  {
    hide NumberFor;
    PlusAdds(a, b);
  }

  lemma SumModulo(a: nat, b: nat)
    ensures (a % 256 + b) % 256 == (a + b) % 256
  {
  }

  lemma {:induction false} ByteSumIsSum(data: seq<byte>)
    ensures NumberFor(ByteSum(data)) == IntegerSum(data) % 256
  {
    if data == [] {
    } else {
      hide NumberFor;
      var n := |data| - 1;
      ByteSumIsSum(data[..n]);
      ByteAdds(ByteSum(data[..n]), data[n]);
      SumModulo(IntegerSum(data[..n]), NumberFor(data[n]));
    }
  }

  /** Bytes 7 to 22 of an extended packet, added as integers, are a multiple of 256. */
  predicate SumsRight(data: Wire) { |data| > EXT_DATA_CRC_INDEX && IntegerSum(data[7..23]) % 256 == 0 }

  lemma Complement(sum: byte, x: byte)
    ensures x == 0 - sum <==> (NumberFor(sum) + NumberFor(x)) % 256 == 0
  {
    hide NumberFor;
    Regroup(sum, x);
    ByteAdds(sum, x);
    Zero(sum + x);
  }

  /** The data checksum is right exactly when it makes the sum so. */
  lemma ExtCrcExact(data: Wire)
    requires |data| > EXT_DATA_CRC_INDEX
    ensures data[EXT_DATA_CRC_INDEX] == ExtCrc(data) <==> SumsRight(data)
  {
    hide NumberFor, ByteSum;
    ByteSumIsSum(data[7..22]);
    Complement(ByteSum(data[7..22]), data[22]);
    SumModulo(IntegerSum(data[7..22]), NumberFor(data[22]));
    assert data[7..23][..15] == data[7..22];
  }

  // ------------------------------------------------------------------ packets

  /** One address, high byte first, the order it is written in. */
  datatype Address = Address(hi: byte, mid: byte, lo: byte)

  /** Address.from_wire: low byte first on the air. */
  function AddressFromWire(b: seq<byte>): Address
    requires |b| >= 3
  {
    Address(b[2], b[1], b[0])
  }

  datatype Packet = Packet(data: Wire, bits: Bits, timestamp: Option<real>, complete: bool,
                           corrected: nat, indexOk: Option<bool>) {

    function Flags(): byte { data[0] }

    predicate Ext() { Extended(data) }

    predicate Ack() { Flags() & 0x20 != 0 }

    function MsgType(): byte { Flags() >> 5 }

    function HopsLeft(): byte { (Flags() >> 2) & 3 }

    function MaxHops(): byte { Flags() & 3 }

    predicate HopsOk() { HopsLegal(Flags()) }

    predicate GroupBroadcast() { IsGroupBroadcast(Flags()) }

    function ToAddr(): Option<Address> {
      if |data| >= 4 then Some(AddressFromWire(data[1..4])) else None
    }

    function FromAddr(): Option<Address> {
      if |data| < 7 || GroupBroadcast() then None else Some(AddressFromWire(data[4..7]))
    }

    function Cmd1(): Option<byte> {
      if |data| > 7 then Some(data[7]) else None
    }

    /** crc_ok: None when the CRC byte is missing. */
    function CrcOk(): Option<bool> {
      if |data| > CrcIndex(data) then Some(data[CrcIndex(data)] == PacketCrc(data)) else None
    }

    function ExtCrcOk(): Option<bool> {
      if !Ext() || |data| <= EXT_DATA_CRC_INDEX then None
      else Some(data[EXT_DATA_CRC_INDEX] == ExtCrc(data))
    }

    /** The CRC byte is there and right. */
    predicate Verified() { CrcOk() == Some(true) }
  }

  predicate HopsLegal(flags: byte) { (flags >> 2) & 3 <= flags & 3 }

  predicate IsGroupBroadcast(flags: byte) { flags & 0xC0 == 0xC0 }

  // ------------------------------------------------------------------ what the flags byte says

  /** The flags byte as a number: three bits of type, the EXT flag, two bits of hops left and two of the most there may be. */
  lemma FlagsLayout(pkt: Packet)
    ensures NumberFor(pkt.MsgType()) < 8 && NumberFor(pkt.HopsLeft()) < 4 && NumberFor(pkt.MaxHops()) < 4
    ensures NumberFor(pkt.data[0]) == 32 * NumberFor(pkt.MsgType()) + (if pkt.Ext() then 16 else 0) +
                                      4 * NumberFor(pkt.HopsLeft()) + NumberFor(pkt.MaxHops())
    ensures pkt.Ack() <==> NumberFor(pkt.MsgType()) % 2 == 1
    ensures pkt.GroupBroadcast() <==> NumberFor(pkt.MsgType()) >= 6
    ensures pkt.HopsOk() <==> NumberFor(pkt.HopsLeft()) <= NumberFor(pkt.MaxHops())
  {
    LayoutOf(pkt.data[0]);
  }

  lemma LayoutOf(flags: byte)
    ensures var kind, left, most := NumberFor(flags >> 5), NumberFor((flags >> 2) & 3), NumberFor(flags & 3);
            kind < 8 && left < 4 && most < 4 &&
            NumberFor(flags) == 32 * kind + (if HasExt(flags) then 16 else 0) + 4 * left + most &&
            (flags & 0x20 != 0 <==> kind % 2 == 1) && (IsGroupBroadcast(flags) <==> kind >= 6) && (HopsLegal(flags) <==> left <= most)
  {
  }

  /** For an extended packet that reaches its checksum byte, `ext_crc_ok` says whether its data bytes add up. */
  lemma ExtCrcOkExactly(pkt: Packet)
    ensures pkt.ExtCrcOk() == if pkt.Ext() && |pkt.data| > EXT_DATA_CRC_INDEX then Some(SumsRight(pkt.data)) else None
  {
    hide ExtCrc, HasExt, SumsRight;
    if |pkt.data| > EXT_DATA_CRC_INDEX {
      ExtCrcExact(pkt.data);
    }
  }

  // ------------------------------------------------------------------ framing

  function ByteBits(b: byte): (r: Bits)
    ensures |r| == 8
  {
    [b & 1 != 0, b & 2 != 0, b & 4 != 0, b & 8 != 0, b & 16 != 0, b & 32 != 0, b & 64 != 0, b & 128 != 0]
  }

  function ByteValue(v: Bits): byte
    requires |v| == 8
  {
    (if v[0] then 1 else 0) | (if v[1] then 2 else 0) | (if v[2] then 4 else 0) | (if v[3] then 8 else 0) |
    (if v[4] then 16 else 0) | (if v[5] then 32 else 0) | (if v[6] then 64 else 0) | (if v[7] then 128 else 0)
  }

  /** Least significant bit first. */
  lemma ByteBitsValue(b: byte)
    ensures var v := ByteBits(b);
            NumberFor(b) == (if v[0] then 1 else 0) + (if v[1] then 2 else 0) + (if v[2] then 4 else 0) + (if v[3] then 8 else 0) +
                            (if v[4] then 16 else 0) + (if v[5] then 32 else 0) + (if v[6] then 64 else 0) + (if v[7] then 128 else 0)
  {
  }

  lemma ByteRoundTrip(b: byte)
    ensures ByteValue(ByteBits(b)) == b
  {
  }

  lemma ByteBitsOfValue(v: Bits)
    requires |v| == 8
    ensures ByteBits(ByteValue(v)) == v
  {
  }

  /** The 5-bit counter, least significant bit first. */
  function IndexBits(n: nat): (r: Bits)
    requires n < 32
    ensures |r| == 5
  {
    [n % 2 == 1, n / 2 % 2 == 1, n / 4 % 2 == 1, n / 8 % 2 == 1, n / 16 % 2 == 1]
  }

  function IndexValue(v: Bits): (n: nat)
    requires |v| == 5
    ensures n < 32
  {
    (if v[0] then 1 else 0) + (if v[1] then 2 else 0) + (if v[2] then 4 else 0) +
    (if v[3] then 8 else 0) + (if v[4] then 16 else 0)
  }

  lemma IndexRoundTrip(n: nat)
    requires n < 32
    ensures IndexValue(IndexBits(n)) == n
    ensures (forall k | 0 <= k < 5 :: IndexBits(n)[k]) ==> n == 31
  {
  }

  /** expected_indexes: frame 0 carries 31, the rest count down to 0. Negative past the last frame. */
  function ExpectedIndex(extended: bool, f: nat): int {
    if f == 0 then 31 else (if extended then 31 else 12) - f
  }

  function FullLength(data: Wire): nat {
    if Extended(data) then EXT_LEN else STD_LEN
  }

  /** One 28-symbol frame: the marker, then Manchester-coded index and data. */
  function FrameBits(index: nat, b: byte): (r: Bits)
    requires index < 32
    ensures |r| == FRAME_BITS
  {
    [true, true] + Encode(IndexBits(index) + ByteBits(b))
  }

  /** Binary digit k of a number, the least significant being digit 0. */
  function DigitOf(n: nat, k: nat): bool {
    if k == 0 then n % 2 == 1 else DigitOf(n / 2, k - 1)
  }

  lemma ByteDigits(b: byte, k: nat)
    requires k < 8
    ensures ByteBits(b)[k] == DigitOf(NumberFor(b), k)
  {
    ByteBitsValue(b);
    hide NumberFor, ByteBits;
    var v := ByteBits(b);
    DigitsOfSum(v[0], v[1], v[2], v[3], v[4], v[5], v[6], v[7], k);
  }

  lemma DigitsOfSum(v0: bool, v1: bool, v2: bool, v3: bool, v4: bool, v5: bool, v6: bool, v7: bool, k: nat)
    requires k < 8
    ensures var n := (if v0 then 1 else 0) + (if v1 then 2 else 0) + (if v2 then 4 else 0) + (if v3 then 8 else 0) +
                     (if v4 then 16 else 0) + (if v5 then 32 else 0) + (if v6 then 64 else 0) + (if v7 then 128 else 0);
            DigitOf(n, k) == [v0, v1, v2, v3, v4, v5, v6, v7][k]
    decreases k
  {
    if k > 0 {
      DigitsOfSum(v1, v2, v3, v4, v5, v6, v7, false, k - 1);
    }
  }

  lemma IndexDigits(n: nat, k: nat)
    requires n < 32 && k < 5
    ensures IndexBits(n)[k] == DigitOf(n, k)
  {
    assert DigitOf(n, 0) == (n % 2 == 1);
    if k > 0 {
      DigitSteps(n, k);
    }
  }

  lemma DigitSteps(n: nat, k: nat)
    requires 0 < k < 5
    ensures DigitOf(n, k) == if k == 1 then n / 2 % 2 == 1 else if k == 2 then n / 4 % 2 == 1 else if k == 3 then n / 8 % 2 == 1
                             else n / 16 % 2 == 1
  {
    assert n / 4 == n / 2 / 2 && n / 8 == n / 4 / 2 && n / 16 == n / 8 / 2;
    if k == 1 {
      assert DigitOf(n / 2, 0) == (n / 2 % 2 == 1);
    } else if k == 2 {
      assert DigitOf(n / 2, 1) == DigitOf(n / 4, 0);
    } else if k == 3 {
      assert DigitOf(n / 2, 2) == DigitOf(n / 4, 1) == DigitOf(n / 8, 0);
    } else {
      assert DigitOf(n / 2, 3) == DigitOf(n / 4, 2) == DigitOf(n / 8, 1) == DigitOf(n / 16, 0);
    }
  }

  /** What a frame is on the air: two ones, then counter and byte, least significant digit first, a 0 as `10`, a 1 as `01`. */
  lemma FrameOnAir(index: nat, b: byte, k: nat)
    requires index < 32 && k < 13
    ensures var f := FrameBits(index, b);
            var one := if k < 5 then DigitOf(index, k) else DigitOf(NumberFor(b), k - 5);
            f[0] && f[1] && f[2 + 2 * k] == !one && f[3 + 2 * k] == one
  {
    hide DigitOf, NumberFor, IndexBits, ByteBits, Encode;
    if k < 5 {
      IndexDigits(index, k);
    } else {
      ByteDigits(b, k - 5);
    }
    var bits := IndexBits(index) + ByteBits(b);
    PairOfEncoded(bits, k);
    assert FrameBits(index, b) == [true, true] + Encode(bits);
  }

  lemma PairOfEncoded(bits: Bits, k: nat)
    requires k < |bits|
    ensures Encode(bits)[2 * k] == !bits[k] && Encode(bits)[2 * k + 1] == bits[k]
  {
  }
}
