/**
 Errors confined to 32 consecutive bits of the data, in the order in which the register takes them: least significant bit
 of each byte first. They may touch five bytes, so the byte windows do not cover them.
 */
module BitBursts {
  import opened Words
  import opened Crc32
  import opened CrcAlgebra
  import opened CrcWindows
  import opened CrcPolynomial
  import opened Protocol
  import opened ProtocolCodec
  import opened ErrorDetection
  import opened BitErrors

  function Falses(n: nat): (bits: seq<bool>)
    ensures |bits| == n
  {
    seq(n, i => false)
  }

  // ----- Four bytes with given bits

  function ByteOf(bits: seq<bool>): byte
    requires |bits| == 8
  {
    (if bits[0] then 1 else 0) | (if bits[1] then 2 else 0) | (if bits[2] then 4 else 0) | (if bits[3] then 8 else 0) |
    (if bits[4] then 16 else 0) | (if bits[5] then 32 else 0) | (if bits[6] then 64 else 0) | (if bits[7] then 128 else 0)
  }

  lemma BitsOfByteOf(bits: seq<bool>)
    requires |bits| == 8
    ensures LowBits(Wide(ByteOf(bits)), 8) == bits
  {
    hide LowBits;
    EightLowBits(Wide(ByteOf(bits)));
    PickedBits(bits[0], bits[1], bits[2], bits[3], bits[4], bits[5], bits[6], bits[7]);
  }

  lemma PickedBits(a: bool, b: bool, c: bool, d: bool, e: bool, f: bool, g: bool, h: bool)
    ensures var w := Wide((if a then 1 else 0) | (if b then 2 else 0) | (if c then 4 else 0) | (if d then 8 else 0) |
                          (if e then 16 else 0) | (if f then 32 else 0) | (if g then 64 else 0) | (if h then 128 else 0));
            && (w & 1 != 0) == a && (w & 2 != 0) == b && (w & 4 != 0) == c && (w & 8 != 0) == d
            && (w & 16 != 0) == e && (w & 32 != 0) == f && (w & 64 != 0) == g && (w & 128 != 0) == h
  {
  }

  function BytesOf(bits: seq<bool>): (bytes: seq<byte>)
    requires |bits| % 8 == 0
    ensures 8 * |bytes| == |bits|
  {
    if |bits| == 0 then [] else [ByteOf(bits[..8])] + BytesOf(bits[8..])
  }

  /** Every string of whole bytes of bits is the message bits of some bytes. */
  lemma {:induction false} BitsOfBytesOf(bits: seq<bool>)
    requires |bits| % 8 == 0
    ensures MessageBits(BytesOf(bits)) == bits
    decreases |bits|
  {
    hide LowBits, ByteOf, Wide;
    if |bits| > 0 {
      BitsOfByteOf(bits[..8]);
      BitsOfBytesOf(bits[8..]);
      assert BytesOf(bits)[1..] == BytesOf(bits[8..]);
      assert bits == bits[..8] + bits[8..];
    }
  }

  // ----- Bits that are not set

  lemma {:induction false} FeedFalses(s: bv32, n: nat)
    ensures FeedBits(s, Falses(n)) == BitSteps(s, n)
    decreases n
  {
    hide BitStep, Xor32;
    if n > 0 {
      XorUnits(s);
      assert Falses(n)[1..] == Falses(n - 1);
      FeedFalses(BitStep(s), n - 1);
    }
  }

  lemma ZeroByte(b: byte)
    ensures LowBits(Wide(b), 8) == Falses(8) <==> b == 0
  {
    hide LowBits, Wide;
    var w := Wide(b);
    EightLowBits(w);
    NoBitPicked(b);
    EightFalses(w & 1 != 0, w & 2 != 0, w & 4 != 0, w & 8 != 0, w & 16 != 0, w & 32 != 0, w & 64 != 0, w & 128 != 0);
  }

  lemma EightFalses(a: bool, b: bool, c: bool, d: bool, e: bool, f: bool, g: bool, h: bool)
    ensures [a, b, c, d] + [e, f, g, h] == Falses(8) <==> !(a || b || c || d || e || f || g || h)
  {
    var bits := [a, b, c, d] + [e, f, g, h];
    assert bits[0] == a && bits[1] == b && bits[2] == c && bits[3] == d;
    assert bits[4] == e && bits[5] == f && bits[6] == g && bits[7] == h;
    if !(a || b || c || d || e || f || g || h) {
      assert forall i :: 0 <= i < 8 ==> bits[i] == Falses(8)[i];
    }
  }

  lemma NoBitPicked(b: byte)
    ensures var w := Wide(b);
            b == 0 <==> w & 1 == 0 && w & 2 == 0 && w & 4 == 0 && w & 8 == 0 &&
                        w & 16 == 0 && w & 32 == 0 && w & 64 == 0 && w & 128 == 0
  {
  }

  lemma {:induction false} ZeroBits(bytes: seq<byte>)
    ensures MessageBits(bytes) == Falses(8 * |bytes|) <==> bytes == Zeros(|bytes|)
    decreases |bytes|
  {
    hide LowBits, Wide;
    if |bytes| > 0 {
      var n := 8 * |bytes|;
      var first, rest := LowBits(Wide(bytes[0]), 8), MessageBits(bytes[1..]);
      ZeroByte(bytes[0]);
      ZeroBits(bytes[1..]);
      assert MessageBits(bytes) == first + rest && Falses(n) == Falses(8) + Falses(n - 8);
      assert bytes == [bytes[0]] + bytes[1..] && Zeros(|bytes|) == [0] + Zeros(|bytes| - 1);
      if MessageBits(bytes) == Falses(n) {
        assert first == MessageBits(bytes)[..8] == Falses(8) && rest == MessageBits(bytes)[8..] == Falses(n - 8);
      }
      if bytes == Zeros(|bytes|) {
        assert bytes[0] == 0 && bytes[1..] == Zeros(|bytes|)[1..] == Zeros(|bytes| - 1);
      }
    }
  }

  // ----- The burst

  /** All set bits of the message bits lie in the 32 from `p`. */
  ghost predicate WithinBits(bits: seq<bool>, p: nat) {
    forall i :: 0 <= i < |bits| && bits[i] ==> p <= i < p + 32
  }

  /** A register that starts at zero and takes such bits is not zero afterwards, unless none is set. */
  lemma RegisterOfBits(bits: seq<bool>, p: nat)
    requires p + 32 <= |bits| && WithinBits(bits, p)
    ensures FeedBits(0, bits) == 0 <==> bits == Falses(|bits|)
  {
    hide FeedBits, MessageBits, BitSteps, Register, BytesOf, WithinBits;
    var n, r := |bits|, |bits| - p - 32;
    var middle := bits[p..p + 32];
    var v := BytesOf(middle);
    var x := Register(0, v);
    CutBits(bits, p);
    FeedConcat(0, Falses(p) + middle, Falses(r));
    FeedConcat(0, Falses(p), middle);
    FeedFalses(0, p);
    BitStepsZero(p);
    BitsOfBytesOf(middle);
    FeedMessage(0, v);
    FeedFalses(x, r);
    BitStepsZero(r);
    if BitSteps(x, r) == 0 {
      BitStepsInjective(x, 0, r);
      ZeroRegister(v);
    }
    if bits == Falses(n) {
      FeedFalses(0, n);
      BitStepsZero(n);
    }
  }

  lemma CutBits(bits: seq<bool>, p: nat)
    requires p + 32 <= |bits| && WithinBits(bits, p)
    ensures bits == Falses(p) + bits[p..p + 32] + Falses(|bits| - p - 32)
    ensures bits[p..p + 32] == Falses(32) ==> bits == Falses(|bits|)
  {
    var cut := Falses(p) + bits[p..p + 32] + Falses(|bits| - p - 32);
    forall i | 0 <= i < |bits|
      ensures bits[i] == cut[i]
    {
    }
    assert bits == cut;
    if bits[p..p + 32] == Falses(32) {
      assert Falses(p) + Falses(32) + Falses(|bits| - p - 32) == Falses(|bits|);
    }
  }

  /** Four bytes that leave a register of zero at zero are zero. */
  lemma ZeroRegister(v: seq<byte>)
    requires |v| == 4 && Register(0, v) == 0
    ensures MessageBits(v) == Falses(32)
  {
    hide Register, MessageBits, BitSteps;
    RegisterOfZeros(0, 4);
    BitStepsZero(32);
    RegisterInjectiveInWord(0, v, Zeros(4));
    ZeroBits(v);
  }

  /** An error in the data only, within 32 consecutive bits. */
  ghost predicate BitBurst(e: seq<byte>, p: nat) {
    |e| == FRAME_SIZE && e[CRC_OFFSET..] == Zeros(4) && WithinBits(MessageBits(e[..CRC_OFFSET]), p)
  }

  lemma SyndromeOfBitBurst(e: seq<byte>, p: nat)
    requires BitBurst(e, p) && p <= 208
    ensures Syndrome(e) == 0 <==> e == Zeros(FRAME_SIZE)
  {
    hide FeedBits, MessageBits, Register, Join32, WithinBits;
    var data := e[..CRC_OFFSET];
    RegisterOfBits(MessageBits(data), p);
    FeedMessage(0, data);
    ZeroBits(data);
    Join32OfZeros();
    XorUnits(Register(0, data));
    assert e == data + e[CRC_OFFSET..];
    assert Zeros(FRAME_SIZE) == Zeros(CRC_OFFSET) + Zeros(4) && Zeros(FRAME_SIZE)[..CRC_OFFSET] == Zeros(CRC_OFFSET);
  }

  /** Every error confined to 32 consecutive bits of the data is noticed, even when it spans five bytes. */
  lemma BitBurstDetected(frame: TelemetryFrame, e: seq<byte>, p: nat)
    requires BitBurst(e, p) && p <= 208 && e != Zeros(FRAME_SIZE)
    ensures Deserialize(Corrupted(frame, e)).frame.None?
    ensures Supported(frame) && HeaderUntouched(e) ==> Deserialize(Corrupted(frame, e)).error == ChecksumMismatch
  {
    hide WithinBits, MessageBits, Syndrome, Deserialize, Corrupted;
    SyndromeOfBitBurst(e, p);
    NonzeroSyndromeRejected(frame, e);
  }
}
