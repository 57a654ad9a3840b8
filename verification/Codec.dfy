/** The byte-level codecs: little-endian lengths, the alternating byte offsets, the length-prefixed
    packet of the echo protocol and the eight-byte timestamp. Memory copies of integers are
    little-endian, as on the hosts the code is built for. */
module Codec {
  import opened Bytes

  const U32: nat := 0x1_0000_0000

  // ---- little-endian 32-bit lengths -----------------------------------------

  function Le32(x: nat): (b: seq<byte>)
    requires x < U32
    ensures |b| == 4
  {
    [x % 256, x / 256 % 256, x / 0x1_0000 % 256, x / 0x100_0000]
  }

  function FromLe32(b: seq<byte>): (x: nat)
    requires |b| == 4
    ensures x < U32
  {
    var b0: int, b1: int, b2: int, b3: int := b[0], b[1], b[2], b[3];
    b0 + 256 * b1 + 0x1_0000 * b2 + 0x100_0000 * b3
  }

  lemma Le32RoundTrip(x: nat)
    requires x < U32
    ensures FromLe32(Le32(x)) == x
  {
    assert x / 0x1_0000 == x / 256 / 256 && x / 0x100_0000 == x / 256 / 256 / 256;
  }

  // ---- the alternating offsets ----------------------------------------------

  function Offset(i: nat): byte {
    if i % 2 == 1 then 0x51 else 0x4A
  }

  function Shift(b: byte, i: nat): byte { (b + Offset(i)) % 256 }
  function Unshift(b: byte, i: nat): byte { (b - Offset(i)) % 256 }

  lemma UnshiftShift(b: byte, i: nat)
    ensures Unshift(Shift(b, i), i) == b && Shift(Unshift(b, i), i) == b
  {
  }

  function Masked(data: seq<byte>): (r: seq<byte>)
    ensures |r| == |data|
  {
    seq(|data|, i requires 0 <= i < |data| => Shift(data[i], i))
  }

  function Unmasked(data: seq<byte>): (r: seq<byte>)
    ensures |r| == |data|
  {
    seq(|data|, i requires 0 <= i < |data| => Unshift(data[i], i))
  }

  lemma UnmaskMask(data: seq<byte>)
    ensures Unmasked(Masked(data)) == data
  {
    forall i | 0 <= i < |data| ensures Unmasked(Masked(data))[i] == data[i] {
      UnshiftShift(data[i], i);
    }
  }

  // ---- packets --------------------------------------------------------------

  /** A packet: type, a length field, the shifted data. */
  function Wire(kind: byte, lengthField: nat, data: seq<byte>): seq<byte>
    requires lengthField < U32
  {
    [kind] + Le32(lengthField) + Masked(data)
  }

  /** The bytes of a packet, one by one. */
  lemma WireIs(kind: byte, lengthField: nat, data: seq<byte>, wire: seq<byte>)
    requires lengthField < U32 && wire == Wire(kind, lengthField, data)
    ensures |wire| == 5 + |data| && wire[0] == kind
    ensures wire[1] as int + 256 * wire[2] as int + 0x1_0000 * wire[3] as int + 0x100_0000 * wire[4] as int
         == lengthField
    ensures forall i :: 0 <= i < |data| ==>
              wire[5 + i] as int == (data[i] as int + (if i % 2 == 1 then 0x51 else 0x4A)) % 256
  {
    Le32RoundTrip(lengthField);
    assert wire[1..5] == Le32(lengthField);
    forall i | 0 <= i < |data| ensures wire[5 + i] == Shift(data[i], i) {
      assert wire[5..][i] == Masked(data)[i];
    }
  }

  /** Writes a packet into `output`; 0 when it does not fit. */
  method WritePacket(kind: byte, lengthField: nat, data: seq<byte>, output: array<byte>) returns (written: nat)
    requires |data| <= U32 - 6 && lengthField < U32
    modifies output
    ensures output.Length < 5 + |data| ==> written == 0 && output[..] == old(output[..])
    ensures output.Length >= 5 + |data| ==>
              written == 5 + |data| && output[..written] == Wire(kind, lengthField, data)
    ensures forall i :: written <= i < output.Length ==> output[i] == old(output[i])
  {
    if output.Length < 5 + |data| {
      return 0;
    }
    output[0] := kind;
    var len := Le32(lengthField);
    output[1], output[2], output[3], output[4] := len[0], len[1], len[2], len[3];
    for i := 0 to |data|
      invariant output[0] == kind && output[1..5] == len
      invariant forall j :: 5 <= j < 5 + i ==> output[j] == Shift(data[j - 5], j - 5)
      invariant forall j :: 5 + |data| <= j < output.Length ==> output[j] == old(output[j])
    {
      output[5 + i] := Shift(data[i], i);
    }
    written := 5 + |data|;
    forall j | 0 <= j < |data| ensures output[5..written][j] == Masked(data)[j] {
      assert output[5..written][j] == output[5 + j];
    }
    assert output[..written] == [kind] + output[1..5] + output[5..written];
  }

  /** The echo protocol's encoder: the length field counts the data. */
  method EncodePacket(kind: byte, data: seq<byte>, output: array<byte>) returns (written: nat)
    requires |data| <= U32 - 6
    modifies output
    ensures output.Length < 5 + |data| ==> written == 0 && output[..] == old(output[..])
    ensures output.Length >= 5 + |data| ==> written == 5 + |data| && output[..written] == Wire(kind, |data|, data)
    ensures output.Length >= 5 + |data| ==>
              && output[0] == kind
              && output[1] as int + 256 * output[2] as int + 0x1_0000 * output[3] as int
                 + 0x100_0000 * output[4] as int == |data|
    ensures output.Length >= 5 + |data| ==> forall i :: 0 <= i < |data| ==>
              output[5 + i] as int == (data[i] as int + (if i % 2 == 1 then 0x51 else 0x4A)) % 256
    ensures forall i :: written <= i < output.Length ==> output[i] == old(output[i])
  {
    written := WritePacket(kind, |data|, data, output);
    if written > 0 {
      WireIs(kind, |data|, data, output[..written]);
    }
  }

  /** The framing encoder: the length field counts header and data. */
  method EncodeFrame(kind: byte, data: seq<byte>, output: array<byte>) returns (written: nat)
    requires |data| <= U32 - 6
    modifies output
    ensures output.Length < 5 + |data| ==> written == 0 && output[..] == old(output[..])
    ensures output.Length >= 5 + |data| ==> written == 5 + |data| && output[..written] == Wire(kind, 5 + |data|, data)
    ensures output.Length >= 5 + |data| ==>
              && output[0] == kind
              && output[1] as int + 256 * output[2] as int + 0x1_0000 * output[3] as int
                 + 0x100_0000 * output[4] as int == 5 + |data|
    ensures output.Length >= 5 + |data| ==> forall i :: 0 <= i < |data| ==>
              output[5 + i] as int == (data[i] as int + (if i % 2 == 1 then 0x51 else 0x4A)) % 256
    ensures forall i :: written <= i < output.Length ==> output[i] == old(output[i])
  {
    written := WritePacket(kind, 5 + |data|, data, output);
    if written > 0 {
      WireIs(kind, 5 + |data|, data, output[..written]);
    }
  }

  /** What the echo protocol's decoder leaves in its outputs. */
  datatype Decoded =
    | TooShort                                       // nothing written
    | HeaderOnly(kind: byte, length: nat)            // type and length written, data incomplete
    | Packet(kind: byte, length: nat, data: seq<byte>)
    | Overrun                                        // 5 + length wraps past 32 bits: reads out of bounds

  function DecodePacket(input: seq<byte>): Decoded {
    if |input| < 5 then TooShort
    else
      var length := FromLe32(input[1..5]);
      if |input| < (5 + length) % U32 then HeaderOnly(input[0], length)
      else if 5 + length >= U32 then Overrun
      else Packet(input[0], length, Unmasked(input[5..5 + length]))
  }

  /** The decoder, writing the data to `output`. The length field and the shifts are spelled out. */
  method DecodeInto(input: seq<byte>, output: array<byte>) returns (kind: byte, length: nat)
    requires !DecodePacket(input).Overrun?
    requires DecodePacket(input).Packet? ==> DecodePacket(input).length <= output.Length
    modifies output
    ensures match DecodePacket(input)
            case TooShort => output[..] == old(output[..])
            case HeaderOnly(k, n) => kind == k && length == n && output[..] == old(output[..])
            case Packet(k, n, data) => kind == k && length == n && output[..length] == data
                                       && output[length..] == old(output[length..])
            case Overrun => true
    ensures |input| < 5 ==> output[..] == old(output[..])
    ensures |input| >= 5 ==>
              && kind == input[0]
              && length == input[1] as int + 256 * input[2] as int + 0x1_0000 * input[3] as int
                           + 0x100_0000 * input[4] as int
    ensures |input| >= 5 && |input| < (5 + length) % 0x1_0000_0000 ==> output[..] == old(output[..])
    ensures |input| >= 5 && |input| >= (5 + length) % 0x1_0000_0000 ==>
              && length <= output.Length && 5 + length <= |input|
              && (forall i :: 0 <= i < length ==>
                    output[i] as int == (input[5 + i] as int - (if i % 2 == 1 then 0x51 else 0x4A)) % 256)
              && forall i :: length <= i < output.Length ==> output[i] == old(output[i])
  {
    kind, length := 0, 0;
    if |input| < 5 {
      return;
    }
    kind, length := input[0], FromLe32(input[1..5]);
    DecodedCases(input);
    if |input| < (5 + length) % U32 {
      return;
    }
    for i := 0 to length
      invariant forall j :: 0 <= j < i ==> output[j] == Unshift(input[5 + j], j)
      invariant forall j :: length <= j < output.Length ==> output[j] == old(output[j])
    {
      output[i] := Unshift(input[5 + i], i);
    }
    assert output[..length] == Unmasked(input[5..5 + length]);
  }

  lemma DecodedCases(input: seq<byte>)
    requires |input| >= 5
    ensures !DecodePacket(input).TooShort?
    ensures DecodePacket(input).Packet? ==> DecodePacket(input).length == FromLe32(input[1..5])
    ensures DecodePacket(input).HeaderOnly? <==> |input| < (5 + FromLe32(input[1..5])) % 0x1_0000_0000
  {
  }

  /** Decoding what was encoded, with anything behind it, gives the type, length and data back. */
  lemma PacketRoundTrip(kind: byte, data: seq<byte>, behind: seq<byte>)
    requires |data| <= U32 - 6
    ensures DecodePacket(Wire(kind, |data|, data) + behind) == Packet(kind, |data|, data)
  {
    var input := Wire(kind, |data|, data) + behind;
    assert input[1..5] == Le32(|data|);
    Le32RoundTrip(|data|);
    assert input[5..5 + |data|] == Masked(data);
    UnmaskMask(data);
  }

  // ---- timestamps -----------------------------------------------------------

  type Time = t: int | 0 <= t < 0x1_0000_0000_0000_0000

  /** `time >> (i * 8)`. */
  function ShiftedRight(time: nat, i: nat): nat {
    if i == 0 then time else ShiftedRight(time, i - 1) / 256
  }

  function Pow256(i: nat): nat {
    if i == 0 then 1 else 256 * Pow256(i - 1)
  }

  /** The eight bytes of a header's timestamp: the low byte first, then shifted. */
  function StampBytes(time: Time): (r: seq<byte>)
    ensures |r| == 8
  {
    seq(8, i requires 0 <= i < 8 => Shift(ShiftedRight(time, i) % 256, i))
  }

  /** The first `k` bytes put together; the source ors bytes that do not overlap. */
  function Assemble(data: seq<byte>, k: nat): nat
    requires k <= |data|
  {
    if k == 0 then 0 else Assemble(data, k - 1) + Unshift(data[k - 1], k - 1) * Pow256(k - 1)
  }

  lemma AssembleNone(data: seq<byte>)
    ensures Assemble(data, 0) == 0 && Pow256(0) == 1
  {
  }

  lemma AssembleStep(data: seq<byte>, k: nat)
    requires k < |data|
    ensures Assemble(data, k + 1) == Assemble(data, k) + Unshift(data[k], k) * Pow256(k)
    ensures Pow256(k + 1) == 256 * Pow256(k)
  {
    hide Unshift;
  }

  lemma Powers()
    ensures Pow256(0) == 1 && Pow256(1) == 0x100 && Pow256(2) == 0x1_0000 && Pow256(3) == 0x100_0000
    ensures Pow256(4) == 0x1_0000_0000 && Pow256(5) == 0x100_0000_0000
    ensures Pow256(6) == 0x1_0000_0000_0000 && Pow256(7) == 0x100_0000_0000_0000
  {
    assert Pow256(2) == 256 * Pow256(1) && Pow256(3) == 256 * Pow256(2) && Pow256(4) == 256 * Pow256(3);
    assert Pow256(5) == 256 * Pow256(4) && Pow256(6) == 256 * Pow256(5) && Pow256(7) == 256 * Pow256(6);
  }

  lemma AssembleHalf(data: seq<byte>)
    requires |data| >= 8
    ensures Assemble(data, 4) == Unshift(data[0], 0) + 0x100 * Unshift(data[1], 1)
                                 + 0x1_0000 * Unshift(data[2], 2) + 0x100_0000 * Unshift(data[3], 3)
    ensures Assemble(data, 8) == Assemble(data, 4) + 0x1_0000_0000 * Unshift(data[4], 4)
                                 + 0x100_0000_0000 * Unshift(data[5], 5)
                                 + 0x1_0000_0000_0000 * Unshift(data[6], 6)
                                 + 0x100_0000_0000_0000 * Unshift(data[7], 7)
  {
    Powers();
    hide Assemble, Unshift, Pow256;
    AssembleNone(data);
    AssembleStep(data, 0); AssembleStep(data, 1); AssembleStep(data, 2); AssembleStep(data, 3);
    AssembleStep(data, 4); AssembleStep(data, 5); AssembleStep(data, 6); AssembleStep(data, 7);
  }

  /** The eight bytes, each with its offset taken off, at their places. */
  lemma AssembleIs(data: seq<byte>)
    requires |data| >= 8
    ensures Assemble(data, 8)
         == (data[0] as int - 0x4A) % 256 + 0x100 * ((data[1] as int - 0x51) % 256)
            + 0x1_0000 * ((data[2] as int - 0x4A) % 256) + 0x100_0000 * ((data[3] as int - 0x51) % 256)
            + 0x1_0000_0000 * ((data[4] as int - 0x4A) % 256)
            + 0x100_0000_0000 * ((data[5] as int - 0x51) % 256)
            + 0x1_0000_0000_0000 * ((data[6] as int - 0x4A) % 256)
            + 0x100_0000_0000_0000 * ((data[7] as int - 0x51) % 256)
  {
    AssembleHalf(data);
    hide Assemble, Pow256;
  }

  method DecodeTimeStamp(data: seq<byte>) returns (time: nat)
    requires |data| >= 8
    ensures time == Assemble(data, 8)
    ensures time == (data[0] as int - 0x4A) % 256 + 0x100 * ((data[1] as int - 0x51) % 256)
                    + 0x1_0000 * ((data[2] as int - 0x4A) % 256) + 0x100_0000 * ((data[3] as int - 0x51) % 256)
                    + 0x1_0000_0000 * ((data[4] as int - 0x4A) % 256)
                    + 0x100_0000_0000 * ((data[5] as int - 0x51) % 256)
                    + 0x1_0000_0000_0000 * ((data[6] as int - 0x4A) % 256)
                    + 0x100_0000_0000_0000 * ((data[7] as int - 0x51) % 256)
  {
    AssembleIs(data);
    hide Assemble, Unshift, Pow256;
    AssembleNone(data);
    time := 0;
    var scale := 1;
    for i := 0 to 8
      invariant time == Assemble(data, i) && scale == Pow256(i)
    {
      AssembleStep(data, i);
      time := time + Unshift(data[i], i) * scale;
      scale := 256 * scale;
    }
  }

  lemma Carry(before: nat, p: nat)
    ensures before % 256 * p + before / 256 * (256 * p) == before * p
  {
    var a, d := before / 256, before % 256;
    assert a * (256 * p) == (256 * a) * p;
    assert (256 * a + d) * p == (256 * a) * p + d * p;
    assert before == 256 * a + d;
  }

  lemma StampDigit(time: Time, i: nat)
    requires i < 8
    ensures Unshift(StampBytes(time)[i], i) == ShiftedRight(time, i) % 256
  {
    hide Shift, Unshift, ShiftedRight;
    UnshiftShift(ShiftedRight(time, i) % 256, i);
  }

  /** What is assembled so far and what is still shifted out make up the time. */
  lemma {:induction false} AssembleDigits(time: Time, k: nat)
    requires k <= 8
    ensures Assemble(StampBytes(time), k) + ShiftedRight(time, k) * Pow256(k) == time
  {
    hide Unshift, StampBytes;
    if k > 0 {
      AssembleDigits(time, k - 1);
      StampDigit(time, k - 1);
      Carry(ShiftedRight(time, k - 1), Pow256(k - 1));
    }
  }

  lemma ShiftedOut(time: Time)
    ensures ShiftedRight(time, 8) == 0
  {
    assert ShiftedRight(time, 0) < 0x10000000000000000;
    assert ShiftedRight(time, 1) < 0x100000000000000;
    assert ShiftedRight(time, 2) < 0x1000000000000;
    assert ShiftedRight(time, 3) < 0x10000000000;
    assert ShiftedRight(time, 4) < 0x100000000;
    assert ShiftedRight(time, 5) < 0x1000000;
    assert ShiftedRight(time, 6) < 0x10000;
    assert ShiftedRight(time, 7) < 0x100;
  }

  /** The 64-bit timestamp survives the header. */
  lemma StampRoundTrip(time: Time)
    ensures Assemble(StampBytes(time), 8) == time
  {
    AssembleDigits(time, 8);
    ShiftedOut(time);
  }

  /** The header sent ahead of a relayed body: type 3, the body's length, the time. */
  function Header(bodyLen: nat, time: Time): (r: seq<byte>)
    requires bodyLen < U32
    ensures |r| == 13
  {
    [3] + Le32(bodyLen) + StampBytes(time)
  }

  lemma StampAt(time: Time, i: nat)
    requires i < 8
    ensures StampBytes(time)[i] == Shift(ShiftedRight(time, i) % 256, i)
    ensures ShiftedRight(time, 0) == time && ShiftedRight(time, i + 1) == ShiftedRight(time, i) / 256
  {
    hide Shift;
  }

  /** The eight timestamp bytes of a header. */
  method FillStamp(output: array<byte>, time: Time)
    requires output.Length == 13
    modifies output
    ensures output[..5] == old(output[..5]) && output[5..] == StampBytes(time)
  {
    hide Shift, ShiftedRight, StampBytes;
    StampAt(time, 0);
    var shifted: nat := time;
    for i := 0 to 8
      invariant output[..5] == old(output[..5]) && shifted == ShiftedRight(time, i)
      invariant forall j :: 5 <= j < 5 + i ==> output[j] == StampBytes(time)[j - 5]
    {
      StampAt(time, i);
      output[5 + i] := Shift(shifted % 256, i);
      shifted := shifted / 256;
    }
  }

  method EncodeHeaderWithTimeStamp(bodyLen: nat, time: Time) returns (output: array<byte>)
    requires bodyLen < U32
    ensures fresh(output) && output[..] == Header(bodyLen, time)
    ensures FromLe32(output[1..5]) == bodyLen && Assemble(output[5..], 8) == time
    ensures output.Length == 13 && output[0] == 3
    ensures output[1] as int + 256 * output[2] as int + 0x1_0000 * output[3] as int
            + 0x100_0000 * output[4] as int == bodyLen
    ensures time == (output[5] as int - 0x4A) % 256 + 0x100 * ((output[6] as int - 0x51) % 256)
                    + 0x1_0000 * ((output[7] as int - 0x4A) % 256) + 0x100_0000 * ((output[8] as int - 0x51) % 256)
                    + 0x1_0000_0000 * ((output[9] as int - 0x4A) % 256)
                    + 0x100_0000_0000 * ((output[10] as int - 0x51) % 256)
                    + 0x1_0000_0000_0000 * ((output[11] as int - 0x4A) % 256)
                    + 0x100_0000_0000_0000 * ((output[12] as int - 0x51) % 256)
  {
    hide Le32, FromLe32, StampBytes, Assemble;
    output := new byte[13];
    output[0] := 3;
    var len := Le32(bodyLen);
    output[1], output[2], output[3], output[4] := len[0], len[1], len[2], len[3];
    assert output[..5] == [3] + len;
    FillStamp(output, time);
    assert output[..] == output[..5] + output[5..];
    assert output[1..5] == output[..5][1..] == len;
    Le32RoundTrip(bodyLen);
    StampRoundTrip(time);
    HeaderIs(output[..], bodyLen, time);
  }

  /** The bytes of a header, one by one. */
  lemma HeaderIs(bytes: seq<byte>, bodyLen: nat, time: Time)
    requires bodyLen < U32 && bytes == Header(bodyLen, time)
    ensures |bytes| == 13 && bytes[0] == 3
    ensures bytes[1] as int + 256 * bytes[2] as int + 0x1_0000 * bytes[3] as int
            + 0x100_0000 * bytes[4] as int == bodyLen
    ensures time == (bytes[5] as int - 0x4A) % 256 + 0x100 * ((bytes[6] as int - 0x51) % 256)
                    + 0x1_0000 * ((bytes[7] as int - 0x4A) % 256) + 0x100_0000 * ((bytes[8] as int - 0x51) % 256)
                    + 0x1_0000_0000 * ((bytes[9] as int - 0x4A) % 256)
                    + 0x100_0000_0000 * ((bytes[10] as int - 0x51) % 256)
                    + 0x1_0000_0000_0000 * ((bytes[11] as int - 0x4A) % 256)
                    + 0x100_0000_0000_0000 * ((bytes[12] as int - 0x51) % 256)
  {
    hide Le32, FromLe32, StampBytes, Assemble;
    assert bytes[1..5] == Le32(bodyLen) && bytes[5..] == StampBytes(time);
    Le32RoundTrip(bodyLen);
    FromLe32Is(bytes[1..5]);
    StampRoundTrip(time);
    AssembleIs(bytes[5..]);
  }

  lemma FromLe32Is(b: seq<byte>)
    requires |b| == 4
    ensures FromLe32(b) == b[0] as int + 256 * b[1] as int + 0x1_0000 * b[2] as int + 0x100_0000 * b[3] as int
  {
  }
}
