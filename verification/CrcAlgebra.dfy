/** What the packet CRC can and cannot detect. */
module CrcAlgebra {
  import opened Common
  import opened Packets

  /** The formula pkt_crc documents for one byte: `r ^= b; r ^= ((r ^ (r << 1)) & 0x0F) << 4`. */
  function NibbleStep(r: byte, b: byte): byte {
    var x := r ^ b;
    x ^ (((x ^ (x << 1)) & 0x0F) << 4)
  }

  lemma TableIsNibble(x: byte)
    ensures CrcTable(x & 0x0F) == ((x ^ (x << 1)) & 0x0F) << 4
  {
    var n := x & 0x0F;
    assert ((x ^ (x << 1)) & 0x0F) << 4 == ((n ^ (n << 1)) & 0x0F) << 4;
  }

  /** The table-driven step is the documented formula. */
  lemma TableStepIsNibbleStep(r: byte, b: byte)
    ensures CrcStep(r, b) == NibbleStep(r, b)
  {
    TableIsNibble(r ^ b);
    hide CrcTable;
  }

  lemma ReduceLinear(x: byte, y: byte)
    ensures CrcReduce(x ^ y) == CrcReduce(x) ^ CrcReduce(y)
  {
    TableIsNibble(x);
    TableIsNibble(y);
    TableIsNibble(x ^ y);
    hide CrcTable;
  }

  lemma ReduceZero(x: byte)
    ensures CrcReduce(x) == 0 <==> x == 0
  {
    TableIsNibble(x);
    hide CrcTable;
  }

  function Xor(x: byte, y: byte): byte { x ^ y }

  function XorBytes(a: seq<byte>, b: seq<byte>): (r: seq<byte>)
    requires |a| == |b|
    ensures |r| == |a|
  {
    seq(|a|, i requires 0 <= i < |a| => Xor(a[i], b[i]))
  }

  lemma StepLinear(p: byte, q: byte, x: byte, y: byte)
    ensures CrcStep(Xor(p, q), Xor(x, y)) == Xor(CrcStep(p, x), CrcStep(q, y))
  {
    ReduceLinear(p ^ x, q ^ y);
    hide CrcReduce;
    assert (p ^ q) ^ (x ^ y) == (p ^ x) ^ (q ^ y);
  }

  /** The CRC register is XOR-linear in the register and the data together. */
  lemma {:induction false} CrcLinear(r: byte, s: byte, a: seq<byte>, b: seq<byte>)
    requires |a| == |b|
    ensures CrcFrom(Xor(r, s), XorBytes(a, b)) == Xor(CrcFrom(r, a), CrcFrom(s, b))
  {
    hide CrcStep, Xor;
    if a != [] {
      var n := |a| - 1;
      CrcLinear(r, s, a[..n], b[..n]);
      assert XorBytes(a, b)[..n] == XorBytes(a[..n], b[..n]);
      StepLinear(CrcFrom(r, a[..n]), CrcFrom(s, b[..n]), a[n], b[n]);
    }
  }

  /** A packet, its CRC byte present. */
  predicate HasCrc(data: Wire) { |data| > CrcIndex(data) }

  predicate CrcValid(data: Wire)
    requires HasCrc(data)
  {
    data[CrcIndex(data)] == PacketCrc(data)
  }

  /** `error` hits a packet without flipping its EXT flag, so both copies are read as the same kind. */
  predicate KeepsKind(data: Wire, error: Wire) { |error| == |data| && error[0] & 0x10 == 0 }

  lemma KindKept(data: Wire, error: Wire)
    requires KeepsKind(data, error)
    ensures XorBytes(data, error) != [] && Extended(XorBytes(data, error)) == Extended(data)
  {
    FlagKept(data[0], error[0]);
  }

  lemma FlagKept(a: byte, e: byte)
    requires e & 0x10 == 0
    ensures (a ^ e) & 0x10 == a & 0x10
  {
  }

  /**
   * Exactly which corruptions of a valid packet go undetected: those whose own CRC, over the same span, is the
   * difference seen in the CRC byte.
   */
  lemma UndetectedExactlyWhen(data: Wire, error: Wire)
    requires HasCrc(data) && CrcValid(data) && KeepsKind(data, error)
    ensures var got := XorBytes(data, error); var n := CrcIndex(data);
            got != [] && HasCrc(got) && (CrcValid(got) <==> CrcFrom(0, error[..n]) == error[n])
  {
    hide CrcFrom, HasExt, Xor;
    KindKept(data, error);
    var got := XorBytes(data, error);
    var n := CrcIndex(data);
    assert got[..n] == XorBytes(data[..n], error[..n]);
    CrcLinear(0, 0, data[..n], error[..n]);
    XorCancel(data[n], error[n], CrcFrom(0, error[..n]));
  }

  lemma XorCancel(a: byte, x: byte, y: byte)
    ensures Xor(a, x) == Xor(a, y) <==> x == y
    ensures Xor(0, 0) == 0
  {
  }

  /** Once an error has entered the register, clean bytes cannot clear it. */
  lemma {:induction false} ErrorPersists(error: seq<byte>, at: nat)
    requires at < |error| && error[at] != 0
    requires forall k :: 0 <= k < |error| && k != at ==> error[k] == 0
    ensures CrcFrom(0, error) != 0
  {
    hide CrcReduce;
    var n := |error| - 1;
    if at < n {
      ErrorPersists(error[..n], at);
      XorZero(CrcFrom(0, error[..n]));
    } else {
      CrcOfZeros(error[..n]);
      XorZero(error[n]);
    }
    ReduceZero(CrcFrom(0, error[..n]) ^ error[n]);
  }

  lemma XorZero(x: byte)
    ensures x ^ 0 == x && 0 ^ x == x && Xor(x, 0) == x
  {
  }

  lemma {:induction false} CrcOfZeros(error: seq<byte>)
    requires forall k :: 0 <= k < |error| ==> error[k] == 0
    ensures CrcFrom(0, error) == 0
  {
    hide CrcReduce;
    if error != [] {
      CrcOfZeros(error[..|error| - 1]);
      ReduceZero(0);
    }
  }

  /** Every error confined to one byte up to and including the CRC byte is caught, unless it flips the EXT flag. */
  lemma SingleByteErrorCaught(data: Wire, error: Wire, at: nat)
    requires HasCrc(data) && CrcValid(data) && KeepsKind(data, error)
    requires at <= CrcIndex(data) && error[at] != 0
    requires forall k :: 0 <= k < |error| && k != at ==> error[k] == 0
    ensures XorBytes(data, error) != [] && HasCrc(XorBytes(data, error)) && !CrcValid(XorBytes(data, error))
  {
    hide CrcFrom, HasExt, CrcValid;
    UndetectedExactlyWhen(data, error);
    var n := CrcIndex(data);
    if at < n {
      ErrorPersists(error[..n], at);
    } else {
      CrcOfZeros(error[..n]);
    }
  }

  // ------------------------------------------------------------------ the data checksum

  lemma {:induction false} SumOfChanged(data: seq<byte>, at: nat, v: byte)
    requires at < |data|
    ensures IntegerSum(data[at := v]) == IntegerSum(data) - NumberFor(data[at]) + NumberFor(v)
  {
    hide NumberFor;
    var n := |data| - 1;
    if at < n {
      SumOfChanged(data[..n], at, v);
      assert data[at := v][..n] == data[..n][at := v];
    } else {
      assert data[at := v][..n] == data[..n];
    }
  }

  lemma DifferentNumbers(a: byte, b: byte)
    requires a != b
    ensures NumberFor(a) != NumberFor(b)
  {
  }

  lemma NotBoth(sum: nat, a: nat, b: nat)
    requires a <= sum && a < 256 && b < 256 && a != b && sum % 256 == 0
    ensures (sum - a + b) % 256 != 0
  {
  }

  lemma {:induction false} SumCovers(data: seq<byte>, at: nat)
    requires at < |data|
    ensures NumberFor(data[at]) <= IntegerSum(data)
  {
    hide NumberFor;
    if at < |data| - 1 {
      SumCovers(data[..|data| - 1], at);
    }
  }

  /** Every change of one data byte of an extended packet, its checksum byte included, is noticed. */
  lemma SingleDataByteCaught(pkt: Packet, at: nat, v: byte)
    requires pkt.ExtCrcOk() == Some(true) && 7 <= at <= EXT_DATA_CRC_INDEX && at < |pkt.data| && v != pkt.data[at]
    ensures var changed: Wire := pkt.data[at := v]; pkt.(data := changed).ExtCrcOk() == Some(false)
  {
    hide NumberFor, ExtCrc, HasExt, IntegerSum;
    var changed: Wire := pkt.data[at := v];
    ExtCrcOkExactly(pkt);
    ExtCrcOkExactly(pkt.(data := changed));
    var body := pkt.data[7..23];
    assert changed[7..23] == body[at - 7 := v];
    SumOfChanged(body, at - 7, v);
    SumCovers(body, at - 7);
    DifferentNumbers(pkt.data[at], v);
    NotBoth(IntegerSum(body), NumberFor(pkt.data[at]), NumberFor(v));
  }

  /** A repeater that changes hops-left without recomputing the CRC is always caught. */
  lemma StaleHopsCaught(data: Wire, flags: byte)
    requires HasCrc(data) && CrcValid(data)
    requires flags != data[0] && flags & 0xF3 == data[0] & 0xF3
    ensures var hopped: Wire := data[0 := flags]; HasCrc(hopped) && !CrcValid(hopped)
  {
    hide CrcFrom, Xor, HasExt;
    HopsXor(data[0], flags);
    var error: Wire := seq(|data|, k => if k == 0 then Xor(data[0], flags) else 0);
    forall k | 0 <= k < |data| ensures XorBytes(data, error)[k] == data[0 := flags][k] {
      XorZero(data[k]);
    }
    assert XorBytes(data, error) == data[0 := flags];
    SingleByteErrorCaught(data, error, 0);
  }

  lemma HopsXor(a: byte, b: byte)
    requires a != b && a & 0xF3 == b & 0xF3
    ensures Xor(a, Xor(a, b)) == b && Xor(a, b) != 0 && Xor(a, b) & 0x10 == 0
  {
  }
}
