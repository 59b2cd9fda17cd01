/** The table-free reflected CRC-32 of protocol/src/crc32.cpp. */
module Crc32 {
  import opened Words

  const POLYNOMIAL: bv32 := 0xEDB8_8320
  const INITIAL_VALUE: bv32 := 0xFFFF_FFFF
  const FINAL_XOR: bv32 := 0xFFFF_FFFF

  /** One turn of the inner loop: branch-free, the mask is 0 or all ones. */
  function BitStep(crc: bv32): bv32 {
    var leastSignificantBit := crc & 1;
    var mask := 0 - leastSignificantBit;
    (crc >> 1) ^ (POLYNOMIAL & mask)
  }

  function BitSteps(crc: bv32, n: nat): bv32
    decreases n
  {
    if n == 0 then crc else BitSteps(BitStep(crc), n - 1)
  }

  function ByteStep(crc: bv32, b: byte): bv32 {
    BitSteps(crc ^ (b as bv32), 8)
  }

  /** The register after feeding `bytes` to a register that held `crc`. */
  function Register(crc: bv32, bytes: seq<byte>): bv32
    decreases |bytes|
  {
    if |bytes| == 0 then crc else Register(ByteStep(crc, bytes[0]), bytes[1..])
  }

  function Crc(bytes: seq<byte>): bv32 {
    Register(INITIAL_VALUE, bytes) ^ FINAL_XOR
  }

  /** The register is a fold: a string may be fed in two parts. */
  lemma {:induction false} RegisterConcat(crc: bv32, a: seq<byte>, b: seq<byte>)
    ensures Register(crc, a + b) == Register(Register(crc, a), b)
    decreases |a|
  {
    if |a| == 0 {
      assert a + b == b;
    } else {
      assert (a + b)[0] == a[0] && (a + b)[1..] == a[1..] + b;
      RegisterConcat(ByteStep(crc, a[0]), a[1..], b);
    }
  }

  lemma RegisterSnoc(crc: bv32, a: seq<byte>, b: byte)
    ensures Register(crc, a + [b]) == ByteStep(Register(crc, a), b)
  {
    RegisterConcat(crc, a, [b]);
    var c := Register(crc, a);
    assert Register(c, [b]) == Register(ByteStep(c, b), [b][1..]);
  }

  lemma RegisterOfNothing(crc: bv32, bytes: seq<byte>)
    ensures Register(crc, bytes[..0]) == crc
  {
  }

  lemma ByteStepStarts(crc: bv32, b: byte)
    ensures ByteStep(crc, b) == BitSteps(crc ^ (b as bv32), 8)
  {
    hide BitSteps;
  }

  lemma BitStepsFirst(crc: bv32, n: nat)
    requires n > 0
    ensures BitSteps(crc, n) == BitSteps(BitStep(crc), n - 1)
  {
    hide BitStep;
  }

  lemma NoStepsLeft(crc: bv32)
    ensures BitSteps(crc, 0) == crc
  {
  }

  lemma MaskedStep(crc: bv32)
    ensures (crc >> 1) ^ (POLYNOMIAL & (0 - (crc & 1))) == BitStep(crc)
  {
  }

  /** The inner loop: one byte fed to the register. */
  method FeedByte(register: bv32, b: byte) returns (crc: bv32)
    ensures crc == ByteStep(register, b)
  {
    hide BitSteps, BitStep, ByteStep;
    crc := register ^ (b as bv32);
    ByteStepStarts(register, b);
    var bit := 0;
    while bit < 8
      invariant 0 <= bit <= 8
      invariant BitSteps(crc, 8 - bit) == ByteStep(register, b)
    {
      ghost var previous := crc;
      var leastSignificantBit := crc & 1;
      var mask := 0 - leastSignificantBit;
      crc := (crc >> 1) ^ (POLYNOMIAL & mask);
      MaskedStep(previous);
      BitStepsFirst(previous, 8 - bit);
      bit := bit + 1;
    }
    NoStepsLeft(crc);
  }

  method CalculateCrc32(bytes: seq<byte>) returns (r: bv32)
    ensures r == Crc(bytes)
  {
    hide Register, ByteStep;
    var crc := INITIAL_VALUE;
    RegisterOfNothing(crc, bytes);
    for i := 0 to |bytes|
      invariant crc == Register(INITIAL_VALUE, bytes[..i])
    {
      RegisterSnoc(INITIAL_VALUE, bytes[..i], bytes[i]);
      crc := FeedByte(crc, bytes[i]);
      assert bytes[..i + 1] == bytes[..i] + [bytes[i]];
    }
    assert bytes[..|bytes|] == bytes;
    return crc ^ FINAL_XOR;
  }
}
