/** Bytes as the symbols they carry, most significant first, and back. */
module BitStrings {
  import opened Common
  import opened Packets

  /** The eight symbols of a byte, in the order they were on the air. */
  function Symbols(b: byte): (r: Bits)
    ensures |r| == 8
  {
    [b & 128 != 0, b & 64 != 0, b & 32 != 0, b & 16 != 0, b & 8 != 0, b & 4 != 0, b & 2 != 0, b & 1 != 0]
  }

  /** Most significant bit first. */
  lemma SymbolsOfByte(b: byte, k: nat)
    requires k < 8
    ensures Symbols(b)[k] == DigitOf(NumberFor(b), 7 - k)
  {
    hide DigitOf, NumberFor, Symbols, ByteBits;
    SameBits(b, k);
    ByteDigits(b, 7 - k);
  }

  lemma SameBits(b: byte, k: nat)
    requires k < 8
    ensures Symbols(b)[k] == ByteBits(b)[7 - k]
  {
    var s, bits := Symbols(b), ByteBits(b);
    assert s == [bits[7], bits[6], bits[5], bits[4], bits[3], bits[2], bits[1], bits[0]];
    hide Symbols, ByteBits;
  }

  function FromSymbols(v: Bits): byte
    requires |v| == 8
  {
    (if v[0] then 128 else 0) | (if v[1] then 64 else 0) | (if v[2] then 32 else 0) | (if v[3] then 16 else 0) |
    (if v[4] then 8 else 0) | (if v[5] then 4 else 0) | (if v[6] then 2 else 0) | (if v[7] then 1 else 0)
  }

  lemma FromSymbolsInverts(b: byte)
    ensures FromSymbols(Symbols(b)) == b
  {
  }

  lemma SymbolsInvert(v: Bits)
    requires |v| == 8
    ensures Symbols(FromSymbols(v)) == v
  {
  }

  /** bits_from_bytes */
  function BitsFromBytes(data: seq<byte>): (r: Bits)
    ensures |r| == 8 * |data|
  {
    if data == [] then [] else Symbols(data[0]) + BitsFromBytes(data[1..])
  }

  function Padding(bits: Bits): (r: Bits)
    ensures |r| < 8 && (|bits| + |r|) % 8 == 0
  {
    seq((8 - |bits| % 8) % 8, _ => false)
  }

  /** Bytes of a whole number of them. */
  function Pack(bits: Bits): (r: seq<byte>)
    requires |bits| % 8 == 0
    ensures |r| == |bits| / 8
  {
    if bits == [] then [] else [FromSymbols(bits[..8])] + Pack(bits[8..])
  }

  /** bytes_from_bits */
  function BytesFromBits(bits: Bits): (r: seq<byte>)
    ensures |r| == (|bits| + 7) / 8
  {
    Pack(bits + Padding(bits))
  }

  lemma {:induction false} PackInverts(bits: Bits)
    requires |bits| % 8 == 0
    ensures BitsFromBytes(Pack(bits)) == bits
  {
    hide FromSymbols, Symbols;
    if bits != [] {
      SymbolsInvert(bits[..8]);
      PackInverts(bits[8..]);
      assert bits == bits[..8] + bits[8..];
    }
  }

  lemma {:induction false} UnpackInverts(data: seq<byte>)
    ensures Pack(BitsFromBytes(data)) == data
  {
    hide FromSymbols, Symbols;
    if data != [] {
      FromSymbolsInverts(data[0]);
      UnpackInverts(data[1..]);
      assert BitsFromBytes(data)[..8] == Symbols(data[0]) && BitsFromBytes(data)[8..] == BitsFromBytes(data[1..]);
    }
  }

  /** Through bytes and back: the bits, zero-padded to a byte. Whole bytes come back as they were. */
  lemma BytesRoundTrip(bits: Bits, data: seq<byte>)
    ensures var back := BitsFromBytes(BytesFromBits(bits));
            back == bits + Padding(bits) && |back| % 8 == 0 && |back| < |bits| + 8 && forall i :: |bits| <= i < |back| ==> !back[i]
    ensures BytesFromBits(BitsFromBytes(data)) == data
  {
    PackInverts(bits + Padding(bits));
    UnpackInverts(data);
    assert BitsFromBytes(data) + Padding(BitsFromBytes(data)) == BitsFromBytes(data);
  }

  /** The symbol at a position is the bit the firmware picks: byte i/8, counted from its top. */
  lemma {:induction false} SymbolAt(data: seq<byte>, i: nat)
    requires i < 8 * |data|
    ensures BitsFromBytes(data)[i] == Symbols(data[i / 8])[i % 8]
  {
    hide Symbols;
    if i >= 8 {
      SymbolAt(data[1..], i - 8);
    }
  }
}
