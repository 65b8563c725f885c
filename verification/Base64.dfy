/** The firmware's hand-written base64 encoder, against a decoder of section 4 of RFC 4648. */
module Base64 {
  import opened Common

  const PAD: char := '='

  type Sextet = bv6

  /** Three bytes side by side. */
  function Packed(a: byte, b: byte, c: byte): bv24 { ((a as bv24) << 16) | ((b as bv24) << 8) | (c as bv24) }

  /** The k-th group of six bits from the top. */
  function SextetOf(v: bv24, k: nat): Sextet
    requires k < 4
  {
    match k
    case 0 => ((v >> 18) & 0x3F) as Sextet
    case 1 => ((v >> 12) & 0x3F) as Sextet
    case 2 => ((v >> 6) & 0x3F) as Sextet
    case _ => (v & 0x3F) as Sextet
  }

  function Joined(a: Sextet, b: Sextet, c: Sextet, d: Sextet): bv24 {
    ((a as bv24) << 18) | ((b as bv24) << 12) | ((c as bv24) << 6) | (d as bv24)
  }

  function ByteOf(v: bv24, k: nat): byte
    requires k < 3
  {
    match k
    case 0 => ((v >> 16) & 0xFF) as byte
    case 1 => ((v >> 8) & 0xFF) as byte
    case _ => (v & 0xFF) as byte
  }

  /** The firmware's table: A to Z, a to z, 0 to 9, plus and slash. */
  function Letter(n: nat): char
    requires n < 64
  {
    if n < 26 then ('A' as int + n) as char
    else if n < 52 then ('a' as int + n - 26) as char
    else if n < 62 then ('0' as int + n - 52) as char
    else if n == 62 then '+' else '/'
  }

  /** The alphabet of RFC 4648, section 4. */
  const UPPER: string := "ABCDEFGHIJKLMNOPQRSTUVWXYZ"
  const LOWER: string := "abcdefghijklmnopqrstuvwxyz"
  const DIGITS: string := "0123456789+/"

  lemma LetterExactly(n: nat)
    requires n < 64
    ensures |UPPER| == |LOWER| == 26 && |DIGITS| == 12
    ensures Letter(n) == if n < 26 then UPPER[n] else if n < 52 then LOWER[n - 26] else DIGITS[n - 52]
  {
  }

  /** Three bytes are cut into four sextets from the most significant bit down. */
  lemma SextetsOfBytes(a: byte, b: byte, c: byte)
    ensures var v := Packed(a, b, c);
            SextetOf(v, 0) as byte == a >> 2 && SextetOf(v, 1) as byte == ((a & 3) << 4) | (b >> 4) &&
            SextetOf(v, 2) as byte == ((b & 15) << 2) | (c >> 6) && SextetOf(v, 3) as byte == c & 63
  {
  }

  function Digit(x: Sextet): char { Letter(x as nat) }

  function PlaceOf(ch: char): (r: Option<nat>)
    ensures r.Some? ==> r.value < 64
  {
    if 'A' <= ch <= 'Z' then Some(ch as int - 'A' as int)
    else if 'a' <= ch <= 'z' then Some(ch as int - 'a' as int + 26)
    else if '0' <= ch <= '9' then Some(ch as int - '0' as int + 52)
    else if ch == '+' then Some(62)
    else if ch == '/' then Some(63)
    else None
  }

  function Value(ch: char): Option<Sextet> {
    var n := PlaceOf(ch);
    if n.None? then None else Some(n.value as Sextet)
  }

  /** Up to three bytes as four characters. */
  function QuadFor(chunk: seq<byte>): (r: string)
    requires 1 <= |chunk| <= 3
    ensures |r| == 4
  {
    var v := Packed(chunk[0], if |chunk| > 1 then chunk[1] else 0, if |chunk| > 2 then chunk[2] else 0);
    [Digit(SextetOf(v, 0)), Digit(SextetOf(v, 1)),
     if |chunk| > 1 then Digit(SextetOf(v, 2)) else PAD, if |chunk| > 2 then Digit(SextetOf(v, 3)) else PAD]
  }

  function Encode(data: seq<byte>): (r: string)
    ensures |r| == (|data| + 2) / 3 * 4
  {
    if data == [] then ""
    else QuadFor(data[..Min(3, |data|)]) + Encode(data[Min(3, |data|)..])
  }

  /** The four characters for the bytes from i on. */
  function GroupAt(buf: seq<byte>, i: nat): string
    requires i < |buf|
  {
    var v := Packed(buf[i], if i + 1 < |buf| then buf[i + 1] else 0, if i + 2 < |buf| then buf[i + 2] else 0);
    [Digit(SextetOf(v, 0)), Digit(SextetOf(v, 1)),
     if i + 1 < |buf| then Digit(SextetOf(v, 2)) else PAD, if i + 2 < |buf| then Digit(SextetOf(v, 3)) else PAD]
  }

  method EncodeCapture(buf: seq<byte>) returns (blob: string)
    ensures blob == Encode(buf)
  {
    hide Encode, Rest, GroupAt;
    blob := "";
    var i := 0;
    EncodeStep(buf, 0);
    while i < |buf|
      invariant Encode(buf) == blob + Rest(buf, i)
      decreases |buf| - i
    {
      EncodeStep(buf, i);
      blob := AppendGroup(blob, buf, i);
      i := i + 3;
    }
    EncodeStep(buf, i);
  }

  /** The body of the loop: three bytes read, four characters appended. */
  method AppendGroup(blob: string, buf: seq<byte>, i: nat) returns (r: string)
    requires i < |buf|
    ensures r == blob + GroupAt(buf, i)
  {
    hide Packed, SextetOf, Digit;
    var a := buf[i];
    var b := if i + 1 < |buf| then buf[i + 1] else 0;
    var c := if i + 2 < |buf| then buf[i + 2] else 0;
    var v := Packed(a, b, c);
    r := blob + [Digit(SextetOf(v, 0))];
    r := r + [Digit(SextetOf(v, 1))];
    r := r + [if i + 1 < |buf| then Digit(SextetOf(v, 2)) else PAD];
    r := r + [if i + 2 < |buf| then Digit(SextetOf(v, 3)) else PAD];
  }

  /** What is still to be encoded from i on; the last group may reach past the end. */
  function Rest(buf: seq<byte>, i: nat): string { if i < |buf| then Encode(buf[i..]) else "" }

  lemma EncodeStep(buf: seq<byte>, i: nat)
    ensures i == 0 ==> Encode(buf) == Rest(buf, 0)
    ensures i >= |buf| ==> Rest(buf, i) == ""
    ensures i < |buf| ==> Rest(buf, i) == GroupAt(buf, i) + Rest(buf, i + 3)
  {
    hide Encode, GroupAt;
    assert buf[0..] == buf;
    EncodeNothing();
    if i < |buf| {
      EncodeUnfolds(buf[i..]);
      FirstGroup(buf, i);
      if i + 3 <= |buf| {
        assert buf[i..][3..] == buf[i + 3..];
      }
    }
  }

  lemma EncodeNothing()
    ensures Encode([]) == ""
  {
  }

  lemma EncodeUnfolds(data: seq<byte>)
    requires data != []
    ensures |data| >= 3 ==> Encode(data) == QuadFor(data[..3]) + Encode(data[3..])
    ensures |data| < 3 ==> Encode(data) == QuadFor(data)
  {
    hide QuadFor, Encode;
    EncodeFirst(data);
    if |data| < 3 {
      EncodeNothing();
      assert data[..|data|] == data && data[|data|..] == [];
      assert QuadFor(data) + "" == QuadFor(data);
    }
  }

  lemma EncodeFirst(data: seq<byte>)
    requires data != []
    ensures Encode(data) == QuadFor(data[..Min(3, |data|)]) + Encode(data[Min(3, |data|)..])
  {
    hide QuadFor;
  }

  lemma FirstGroup(buf: seq<byte>, i: nat)
    requires i < |buf|
    ensures GroupAt(buf, i) == QuadFor(if i + 3 <= |buf| then buf[i..][..3] else buf[i..])
  {
    hide Packed, SextetOf, Digit;
  }

  // ------------------------------------------------------------------ the decoder

  /** The bytes of one group of four characters; only the last group may be padded. */
  function FromQuad(q: string, last: bool): Option<seq<byte>>
    requires |q| == 4
  {
    var a, b, c, d := Value(q[0]), Value(q[1]), Value(q[2]), Value(q[3]);
    if a.None? || b.None? then None
    else if c.Some? && d.Some? then
      var v := Joined(a.value, b.value, c.value, d.value);
      Some([ByteOf(v, 0), ByteOf(v, 1), ByteOf(v, 2)])
    else if last && c.Some? && q[3] == PAD then
      var v := Joined(a.value, b.value, c.value, 0);
      Some([ByteOf(v, 0), ByteOf(v, 1)])
    else if last && q[2] == PAD && q[3] == PAD then Some([ByteOf(Joined(a.value, b.value, 0, 0), 0)])
    else None
  }

  function Decode(text: string): Option<seq<byte>> {
    if text == "" then Some([])
    else if |text| < 4 then None
    else
      var head, rest := FromQuad(text[..4], |text| == 4), Decode(text[4..]);
      if head.None? || rest.None? then None else Some(head.value + rest.value)
  }

  lemma DigitHasValue(x: Sextet)
    ensures Value(Digit(x)) == Some(x) && Digit(x) != PAD
  {
    hide Letter, PlaceOf;
    LetterPlace(x as nat);
  }

  lemma LetterPlace(n: nat)
    requires n < 64
    ensures PlaceOf(Letter(n)) == Some(n) && Letter(n) != PAD
  {
  }

  lemma PadHasNoValue()
    ensures Value(PAD).None?
  {
  }

  /** Six bits at a time and eight bits at a time say the same. */
  lemma Regroup(a: byte, b: byte, c: byte)
    ensures var v := Packed(a, b, c);
            var w := Joined(SextetOf(v, 0), SextetOf(v, 1), SextetOf(v, 2), SextetOf(v, 3));
            w == v && ByteOf(w, 0) == a && ByteOf(w, 1) == b && ByteOf(w, 2) == c
    ensures c == 0 ==> SextetOf(Packed(a, b, c), 3) == 0
    ensures b == 0 && c == 0 ==> SextetOf(Packed(a, b, c), 2) == 0
  {
  }

  lemma QuadRoundTrip(chunk: seq<byte>, last: bool)
    requires 1 <= |chunk| <= 3 && (|chunk| < 3 ==> last)
    ensures FromQuad(QuadFor(chunk), last) == Some(chunk)
  {
    hide Packed, Joined, SextetOf, ByteOf, Digit, Value;
    var a, b, c := chunk[0], if |chunk| > 1 then chunk[1] else 0, if |chunk| > 2 then chunk[2] else 0;
    var v := Packed(a, b, c);
    Regroup(a, b, c);
    DigitHasValue(SextetOf(v, 0));
    DigitHasValue(SextetOf(v, 1));
    DigitHasValue(SextetOf(v, 2));
    DigitHasValue(SextetOf(v, 3));
    PadHasNoValue();
    assert chunk == if |chunk| == 1 then [a] else if |chunk| == 2 then [a, b] else [a, b, c];
  }

  /** Any capture, of any length, decodes to itself. */
  lemma {:induction false} DecodeInvertsEncode(data: seq<byte>)
    ensures Decode(Encode(data)) == Some(data)
  {
    hide QuadFor, FromQuad, Encode;
    EncodeNothing();
    if data != [] {
      var n := Min(3, |data|);
      EncodeFirst(data);
      QuadRoundTrip(data[..n], n == |data|);
      DecodeInvertsEncode(data[n..]);
      assert Encode(data)[..4] == QuadFor(data[..n]) && Encode(data)[4..] == Encode(data[n..]);
      assert data == data[..n] + data[n..];
    }
  }
}
