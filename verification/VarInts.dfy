// Base-128 variable-length integers: the Java protocol's VarInt and the ZigZag
// form of Protocol Buffers Encoding, "Signed Integers", that Bedrock uses.
module VarInts {
  import opened Widths

  type Bytes = seq<UInt8>

  // Low seven bits first, the high bit set on every byte but the last.
  function VarUInt(n: UInt32): Bytes {
    if n >= 0x80 then [n % 0x80 + 0x80] + VarUInt(n / 0x80) else [n]
  }

  // A reader of at most five bytes; the fifth may carry only four bits.
  function ReadVarUIntFrom(bytes: Bytes, i: nat): (r: Option<(nat, Bytes)>)
    requires i <= 4
    ensures r.Some? ==> r.value.0 < VarUIntLimit(i) && |r.value.1| < |bytes|
    decreases 4 - i
  {
    if bytes == [] then None
    else if bytes[0] < 0x80 then
      if i == 4 && bytes[0] > 0x0f then None else Some((bytes[0], bytes[1..]))
    else if i == 4 then None
    else
      match ReadVarUIntFrom(bytes[1..], i + 1)
      case None => None
      case Some((high, rest)) => Some((bytes[0] % 0x80 + 0x80 * high, rest))
  }

  // The values that fit into the bytes from the i-th on.
  function VarUIntLimit(i: nat): nat
    requires i <= 4
  {
    if i == 0 then 0x1_0000_0000
    else if i == 1 then 0x200_0000
    else if i == 2 then 0x4_0000
    else if i == 3 then 0x800
    else 0x10
  }

  function ReadVarUInt(bytes: Bytes): (r: Option<(UInt32, Bytes)>) {
    ReadVarUIntFrom(bytes, 0)
  }

  // One more byte in front of what the rest of the input reads as.
  lemma ReadContinued(low: nat, high: nat, i: nat, tail: Bytes, rest: Bytes)
    requires i < 4 && low < 0x80 && ReadVarUIntFrom(tail, i + 1) == Some((high, rest))
    ensures ReadVarUIntFrom([low + 0x80] + tail, i) == Some((low + 0x80 * high, rest))
  {
    assert ([low + 0x80] + tail)[1..] == tail;
  }

  lemma {:induction false} VarUIntRoundTripFrom(n: UInt32, i: nat, rest: Bytes)
    requires i <= 4 && n < VarUIntLimit(i)
    ensures ReadVarUIntFrom(VarUInt(n) + rest, i) == Some((n, rest))
    decreases 4 - i
  {
    if n >= 0x80 {
      var low, high := n % 0x80, n / 0x80;
      assert VarUInt(n) + rest == [low + 0x80] + (VarUInt(high) + rest);
      VarUIntRoundTripFrom(high, i + 1, rest);
      ReadContinued(low, high, i, VarUInt(high) + rest, rest);
    } else {
      assert (VarUInt(n) + rest)[1..] == rest;
    }
  }

  lemma VarUIntRoundTrip(n: UInt32, rest: Bytes)
    ensures ReadVarUInt(VarUInt(n) + rest) == Some((n, rest))
  {
    VarUIntRoundTripFrom(n, 0, rest);
  }

  // ----- signed forms ------------------------------------------------------

  // The Java VarInt: the two's complement word, low bits first.
  function VarInt(v: Int32): Bytes {
    VarUInt(ToUInt32(v))
  }

  function ReadVarInt(bytes: Bytes): (r: Option<(Int32, Bytes)>) {
    match ReadVarUInt(bytes)
    case None => None
    case Some((u, rest)) => Some((ToInt32(u), rest))
  }

  // ZigZag maps 0, -1, 1, -2, ... to 0, 1, 2, 3, ...
  function ZigZag(v: Int32): UInt32 {
    if v >= 0 then 2 * v else -2 * v - 1
  }

  function UnZigZag(u: UInt32): Int32 {
    if u % 2 == 0 then u / 2 else -(u / 2) - 1
  }

  function SignedVarInt(v: Int32): Bytes {
    VarUInt(ZigZag(v))
  }

  function ReadSignedVarInt(bytes: Bytes): (r: Option<(Int32, Bytes)>) {
    match ReadVarUInt(bytes)
    case None => None
    case Some((u, rest)) => Some((UnZigZag(u), rest))
  }

  lemma SignedVarIntRoundTrip(v: Int32, rest: Bytes)
    ensures ReadSignedVarInt(SignedVarInt(v) + rest) == Some((v, rest))
  {
    VarUIntRoundTrip(ZigZag(v), rest);
  }

  lemma VarIntRoundTrip(v: Int32, rest: Bytes)
    ensures ReadVarInt(VarInt(v) + rest) == Some((v, rest))
  {
    VarUIntRoundTrip(ToUInt32(v), rest);
  }

  // ----- the writers, step by step -----------------------------------------

  lemma ContinuationByte(n: nat)
    ensures BitOr(n % 0x100, 0x80) == n % 0x80 + 0x80
  {
    var m := n % 0x100;
    LowSevenBits(n);
    LowSevenBits(m);
    hide BitOr;
    Pow2Values();
    if m < 0x80 {
      OrOfDisjoint(m, 1, 7);
    } else {
      OrAgain(m - 0x80, 7);
    }
  }

  lemma LowSevenBits(n: nat)
    ensures n % 0x80 == if n % 0x100 < 0x80 then n % 0x100 else n % 0x100 - 0x80
  {
    var q, m := n / 0x100, n % 0x100;
    if m < 0x80 {
      DivModUnique(n, 0x80, 2 * q, m);
    } else {
      DivModUnique(n, 0x80, 2 * q + 1, m - 0x80);
    }
  }

  // OR-ing a bit that is already set changes nothing.
  lemma {:induction false} OrAgain(a: nat, k: nat)
    requires a < Pow2(k)
    ensures BitOr(a + Pow2(k), Pow2(k)) == a + Pow2(k)
  {
    if k > 0 {
      OrAgain(a / 2, k - 1);
      assert (a + Pow2(k)) / 2 == a / 2 + Pow2(k - 1);
      assert (a + Pow2(k)) % 2 == a % 2;
    }
  }

  // uint32(v << 1) ^ uint32(v >> 31): the arithmetic shift gives all ones for
  // a negative value and zero otherwise.
  function ShiftedXor(v: Int32): nat {
    BitXor((2 * ToUInt32(v)) % WORD32, ToUInt32(if v < 0 then -1 else 0))
  }

  lemma ShiftedXorIsZigZag(v: Int32)
    ensures ShiftedXor(v) == ZigZag(v)
  {
    if v < 0 {
      var doubled := 2 * v + WORD32;
      DivModUnique(2 * ToUInt32(v), WORD32, 1, doubled);
      ComplementWord(doubled);
    }
  }

  lemma ComplementWord(a: UInt32)
    ensures BitXor(a, WORD32 - 1) == WORD32 - 1 - a
  {
    Pow2Values();
    XorWithOnes(a, 32);
  }

  class ByteBuffer {
    var data: Bytes

    constructor ()
      ensures data == []
    {
      data := [];
    }

    method WriteByte(b: UInt8)
      modifies this
      ensures data == old(data) + [b]
    {
      data := data + [b];
    }

    method Write(bytes: Bytes)
      modifies this
      ensures data == old(data) + bytes
    {
      data := data + bytes;
    }
  }

  method WriteVarUInt(out: ByteBuffer, value: UInt32)
    modifies out
    ensures out.data == old(out.data) + VarUInt(value)
  {
    var encoded := value;
    while encoded >= 0x80
      invariant old(out.data) + VarUInt(value) == out.data + VarUInt(encoded)
    {
      ContinuationByte(encoded);
      assert out.data + VarUInt(encoded) == (out.data + [encoded % 0x80 + 0x80]) + VarUInt(encoded / 0x80);
      out.WriteByte(BitOr(encoded % 0x100, 0x80));
      encoded := encoded / 0x80;
    }
    out.WriteByte(encoded);
  }

  method WriteSignedVarInt(out: ByteBuffer, value: Int32)
    modifies out
    ensures out.data == old(out.data) + SignedVarInt(value)
  {
    ShiftedXorIsZigZag(value);
    WriteVarUInt(out, ShiftedXor(value));
  }
}
