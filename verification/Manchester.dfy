/** Manchester (bi-phase level) coding: a logical 0 is the pair `10`, a logical 1 the pair `01`. */
module Manchester {
  import opened Common

  function Invert(bits: Bits): (r: Bits)
    ensures |r| == |bits|
    ensures forall i :: 0 <= i < |r| ==> r[i] == !bits[i]
  {
    seq(|bits|, i requires 0 <= i < |bits| => !bits[i])
  }

  lemma InvertTwice(bits: Bits)
    ensures Invert(Invert(bits)) == bits
  {
  }

  /** The k-th aligned pair is a legal Manchester symbol. */
  predicate LegalPair(bits: Bits, k: nat)
    requires 2 * k + 1 < |bits|
  {
    bits[2 * k] != bits[2 * k + 1]
  }

  predicate Legal(bits: Bits) {
    forall k | 0 <= k < |bits| / 2 :: LegalPair(bits, k)
  }

  function Encode(bits: Bits): (r: Bits)
    ensures |r| == 2 * |bits|
  {
    seq(2 * |bits|, i requires 0 <= i < 2 * |bits| => bits[i / 2] == (i % 2 == 1))
  }

  lemma EncodePair(bits: Bits, k: nat)
    requires k < |bits|
    ensures Encode(bits)[2 * k] == !bits[k] && Encode(bits)[2 * k + 1] == bits[k]
    ensures LegalPair(Encode(bits), k)
  {
  }

  /** The logical bits of a legal stream: the second symbol of each pair. A trailing odd symbol is ignored. */
  function Decode(bits: Bits): (r: Bits)
    ensures |r| == |bits| / 2
    ensures forall k :: 0 <= k < |r| ==> r[k] == bits[2 * k + 1]
  {
    seq(|bits| / 2, k requires 0 <= k < |bits| / 2 => bits[2 * k + 1])
  }

  /** manchester_decode: None stands for ManchesterError. */
  method DecodePairs(bits: Bits) returns (r: Option<Bits>)
    ensures r.Some? <==> Legal(bits)
    ensures r.Some? ==> r.value == Decode(bits) && (|bits| % 2 == 0 ==> bits == Encode(r.value))
  {
    var out: Bits := [];
    var i := 0;
    while i < |bits| - 1
      invariant i == 2 * |out|
      invariant i <= |bits|
      invariant forall k :: 0 <= k < |out| ==> LegalPair(bits, k) && out[k] == bits[2 * k + 1]
    {
      if bits[i] == bits[i + 1] {
        assert !LegalPair(bits, |out|);
        return None;
      }
      assert LegalPair(bits, |out|);
      out := out + [bits[i + 1]];
      i := i + 2;
    }
    r := Some(out);
    assert out == Decode(bits);
    assert Legal(bits);
    if |bits| % 2 == 0 {
      forall j | 0 <= j < |bits| ensures bits[j] == Encode(out)[j] {
        assert LegalPair(bits, j / 2);
      }
    }
  }

  lemma DecodeInvertsEncode(bits: Bits)
    ensures Legal(Encode(bits)) && Decode(Encode(bits)) == bits
  {
    forall k | 0 <= k < |Encode(bits)| / 2 ensures LegalPair(Encode(bits), k) {
      EncodePair(bits, k);
    }
  }

  /** A stream is legal exactly when its pairs are the encoding of what they decode to; a trailing odd symbol does not matter. */
  lemma LegalExactly(bits: Bits)
    ensures Legal(bits) <==> Encode(Decode(bits)) == bits[..|bits| - |bits| % 2]
  {
    var again, pairs := Encode(Decode(bits)), bits[..|bits| - |bits| % 2];
    if Legal(bits) {
      forall j | 0 <= j < |pairs| ensures pairs[j] == again[j] {
        assert LegalPair(bits, j / 2);
      }
    }
    if again == pairs {
      forall k | 0 <= k < |bits| / 2 ensures LegalPair(bits, k) {
        EncodePair(Decode(bits), k);
        assert pairs[2 * k] == again[2 * k] && pairs[2 * k + 1] == again[2 * k + 1];
      }
    }
  }
}
