/**
 Errors confined to four consecutive bytes. Every one is noticed at every offset, with one exception: because the
 checksum is stored most significant byte first, a single pattern straddling offset 30 has a zero syndrome.
 */
module BurstErrors {
  import opened Words
  import opened Crc32
  import opened CrcAlgebra
  import opened CrcWindows
  import opened Protocol
  import opened ProtocolCodec
  import opened ErrorDetection
  import opened BitErrors

  /** The one burst the checksum cannot see: it hits the status flags and the two high checksum bytes. */
  const BLIND_OFFSET: nat := 28
  const BLIND_PATTERN: seq<byte> := [0x61, 0xD8, 0xF4, 0xEE]

  function BurstError(w: nat, b: seq<byte>): (e: seq<byte>)
    requires w + 4 <= FRAME_SIZE && |b| == 4
    ensures |e| == FRAME_SIZE
  {
    Zeros(w) + b + Zeros(FRAME_SIZE - 4 - w)
  }

  // ----- Bursts that do not straddle the stored checksum

  lemma RegisterOfBurst(w: nat, d: seq<byte>, n: nat)
    requires |d| <= 4
    ensures Register(0, Zeros(w) + d + Zeros(n)) == BitSteps(LittleEndianWord(d), 8 * (|d| + n))
  {
    hide BitSteps, Register, Xor32, LittleEndianWord;
    var x := LittleEndianWord(d);
    RegisterOfThreeParts(0, Zeros(w), d, Zeros(n));
    RegisterOfZeros(0, w);
    BitStepsZero(8 * w);
    RegisterOfWord(0, d);
    XorUnits(x);
    RegisterOfZeros(BitSteps(x, 8 * |d|), n);
    BitStepsAdd(x, 8 * |d|, 8 * n);
  }

  lemma DataBurst(w: nat, b: seq<byte>)
    requires w <= 26 && |b| == 4
    ensures Syndrome(BurstError(w, b)) == 0 <==> b == Zeros(4)
  {
    hide BitSteps, Register, Xor32, LittleEndianWord, Join32;
    var e := BurstError(w, b);
    assert e[..CRC_OFFSET] == Zeros(w) + b + Zeros(26 - w);
    assert e[CRC_OFFSET..] == Zeros(4);
    var x := LittleEndianWord(b);
    var n := 8 * (30 - w);
    RegisterOfBurst(w, b, 26 - w);
    Join32OfZeros();
    XorUnits(BitSteps(x, n));
    BitStepsZero(n);
    if BitSteps(x, n) == 0 {
      BitStepsInjective(x, 0, n);
      WordOfZeros();
      LittleEndianInjective(b, Zeros(4));
    }
    if b == Zeros(4) {
      WordOfZeros();
    }
  }

  lemma WordOfZeros()
    ensures LittleEndianWord(Zeros(4)) == 0
  {
    hide LittleEndianWord;
    LittleEndianOfFour(Zeros(4));
    assert Little32(0, 0, 0, 0) == 0;
  }

  lemma ChecksumBurst(b: seq<byte>)
    requires |b| == 4
    ensures Syndrome(BurstError(30, b)) == 0 <==> b == Zeros(4)
  {
    hide Syndrome, Join32;
    var e := BurstError(30, b);
    assert e[..CRC_OFFSET] == Zeros(CRC_OFFSET) && e[CRC_OFFSET..] == b;
    SyndromeOfCrcBytes(e);
    Join32OfZeros();
    BytesOfJoin32(b);
    BytesOfJoin32(Zeros(4));
  }

  // ----- Linear combinations: the image of a byte is known from the images of its bits

  /** The word `k` if the low bit of `b` is set; branch-free, like the bit step. */
  function Term(b: bv32, k: bv32): bv32 {
    (0 - (b & 1)) & k
  }

  function XorOfFour(w: bv32, x: bv32, y: bv32, z: bv32): bv32 {
    (w ^ x) ^ (y ^ z)
  }

  lemma XorOfFourByName(w: bv32, x: bv32, y: bv32, z: bv32)
    ensures XorOfFour(w, x, y, z) == Xor32(Xor32(w, x), Xor32(y, z))
  {
    hide Xor32;
    XorByName(w, x);
    XorByName(y, z);
    XorByName(w ^ x, y ^ z);
  }

  /** The sum of the words picked by the low eight bits of `b`. */
  function Sum(b: bv32, k0: bv32, k1: bv32, k2: bv32, k3: bv32, k4: bv32, k5: bv32, k6: bv32, k7: bv32): bv32 {
    XorOfFour(Term(b, k0), Term(b >> 1, k1), Term(b >> 2, k2), Term(b >> 3, k3)) ^
    XorOfFour(Term(b >> 4, k4), Term(b >> 5, k5), Term(b >> 6, k6), Term(b >> 7, k7))
  }

  lemma SumByName(b: bv32, k0: bv32, k1: bv32, k2: bv32, k3: bv32, k4: bv32, k5: bv32, k6: bv32, k7: bv32)
    ensures Sum(b, k0, k1, k2, k3, k4, k5, k6, k7)
         == Xor32(XorOfFour(Term(b, k0), Term(b >> 1, k1), Term(b >> 2, k2), Term(b >> 3, k3)),
                  XorOfFour(Term(b >> 4, k4), Term(b >> 5, k5), Term(b >> 6, k6), Term(b >> 7, k7)))
  {
    hide Xor32, XorOfFour, Term;
    XorByName(XorOfFour(Term(b, k0), Term(b >> 1, k1), Term(b >> 2, k2), Term(b >> 3, k3)),
              XorOfFour(Term(b >> 4, k4), Term(b >> 5, k5), Term(b >> 6, k6), Term(b >> 7, k7)));
  }

  function Combine(b: byte, k: seq<bv32>): bv32
    requires |k| == 8
  {
    Sum(Wide(b), k[0], k[1], k[2], k[3], k[4], k[5], k[6], k[7])
  }

  lemma TermCases(b: bv32, k: bv32)
    ensures Term(b, k) == k || Term(b, k) == 0
    ensures b & 1 == 0 ==> Term(b, k) == 0
    ensures b & 1 != 0 ==> Term(b, k) == k
  {
    if b & 1 == 0 {
      NoMask(k);
    } else {
      LowBitSet(b);
      FullMask(k);
    }
  }

  lemma LowBitSet(b: bv32)
    requires b & 1 != 0
    ensures b & 1 == 1
  {
  }

  lemma NoMask(k: bv32)
    ensures (0 - 0) & k == 0
  {
  }

  lemma FullMask(k: bv32)
    ensures (0 - 1) & k == k
  {
  }

  lemma TwoTerms(p: bv32, q: bv32, x: bv32, y: bv32, n: nat)
    ensures BitSteps(Xor32(Term(p, x), Term(q, y)), n) == Xor32(Term(p, BitSteps(x, n)), Term(q, BitSteps(y, n)))
  {
    hide BitSteps, Xor32, Term;
    BitStepsZero(n);
    BitStepsXor(Term(p, x), Term(q, y), n);
    TermCases(p, x);
    TermCases(q, y);
    TermCases(p, BitSteps(x, n));
    TermCases(q, BitSteps(y, n));
  }

  lemma FourTerms(p: bv32, q: bv32, r: bv32, s: bv32, w: bv32, x: bv32, y: bv32, z: bv32, n: nat)
    ensures BitSteps(XorOfFour(Term(p, w), Term(q, x), Term(r, y), Term(s, z)), n)
         == XorOfFour(Term(p, BitSteps(w, n)), Term(q, BitSteps(x, n)), Term(r, BitSteps(y, n)), Term(s, BitSteps(z, n)))
  {
    hide BitSteps, Xor32, Term, XorOfFour;
    TwoTerms(p, q, w, x, n);
    TwoTerms(r, s, y, z, n);
    BitStepsXor(Xor32(Term(p, w), Term(q, x)), Xor32(Term(r, y), Term(s, z)), n);
    XorOfFourByName(Term(p, w), Term(q, x), Term(r, y), Term(s, z));
    XorOfFourByName(Term(p, BitSteps(w, n)), Term(q, BitSteps(x, n)), Term(r, BitSteps(y, n)), Term(s, BitSteps(z, n)));
  }

  /** Linearity: the image of a sum is the sum of the images. */
  lemma CombineAdvances(b: byte, k: seq<bv32>, n: nat, l: seq<bv32>)
    requires |k| == |l| == 8 && forall i :: 0 <= i < 8 ==> BitSteps(k[i], n) == l[i]
    ensures BitSteps(Combine(b, k), n) == Combine(b, l)
  {
    hide BitSteps, Xor32, Term, Wide, XorOfFour, Sum;
    var w := Wide(b);
    var low := XorOfFour(Term(w, k[0]), Term(w >> 1, k[1]), Term(w >> 2, k[2]), Term(w >> 3, k[3]));
    var high := XorOfFour(Term(w >> 4, k[4]), Term(w >> 5, k[5]), Term(w >> 6, k[6]), Term(w >> 7, k[7]));
    FourTerms(w, w >> 1, w >> 2, w >> 3, k[0], k[1], k[2], k[3], n);
    FourTerms(w >> 4, w >> 5, w >> 6, w >> 7, k[4], k[5], k[6], k[7], n);
    BitStepsXor(low, high, n);
    SumByName(w, k[0], k[1], k[2], k[3], k[4], k[5], k[6], k[7]);
    SumByName(w, l[0], l[1], l[2], l[3], l[4], l[5], l[6], l[7]);
  }

  const UNIT: seq<bv32> := [1, 2, 4, 8, 16, 32, 64, 128]
  const AFTER_8: seq<bv32> :=
    [0x7707_3096, 0xEE0E_612C, 0x076D_C419, 0x0EDB_8832, 0x1DB7_1064, 0x3B6E_20C8, 0x76DC_4190, 0xEDB8_8320]
  const AFTER_16: seq<bv32> :=
    [0x191B_3141, 0x3236_6282, 0x646C_C504, 0xC8D9_8A08, 0x4AC2_1251, 0x9584_24A2, 0xF079_4F05, 0x3B83_984B]

  lemma AfterEightA()
    ensures BitSteps(UNIT[0], 8) == AFTER_8[0] && BitSteps(UNIT[1], 8) == AFTER_8[1]
  {
  }

  lemma AfterEightB()
    ensures BitSteps(UNIT[2], 8) == AFTER_8[2] && BitSteps(UNIT[3], 8) == AFTER_8[3]
  {
  }

  lemma AfterEightC()
    ensures BitSteps(UNIT[4], 8) == AFTER_8[4] && BitSteps(UNIT[5], 8) == AFTER_8[5]
  {
  }

  lemma AfterEightD()
    ensures BitSteps(UNIT[6], 8) == AFTER_8[6] && BitSteps(UNIT[7], 8) == AFTER_8[7]
  {
  }

  lemma AfterEight()
    ensures forall i :: 0 <= i < 8 ==> BitSteps(UNIT[i], 8) == AFTER_8[i]
  {
    hide BitSteps;
    AfterEightA();
    AfterEightB();
    AfterEightC();
    AfterEightD();
  }

  lemma AfterSixteenA()
    ensures BitSteps(AFTER_8[0], 8) == AFTER_16[0] && BitSteps(AFTER_8[1], 8) == AFTER_16[1]
  {
  }

  lemma AfterSixteenB()
    ensures BitSteps(AFTER_8[2], 8) == AFTER_16[2] && BitSteps(AFTER_8[3], 8) == AFTER_16[3]
  {
  }

  lemma AfterSixteenC()
    ensures BitSteps(AFTER_8[4], 8) == AFTER_16[4] && BitSteps(AFTER_8[5], 8) == AFTER_16[5]
  {
  }

  lemma AfterSixteenD()
    ensures BitSteps(AFTER_8[6], 8) == AFTER_16[6] && BitSteps(AFTER_8[7], 8) == AFTER_16[7]
  {
  }

  lemma AfterSixteen()
    ensures forall i :: 0 <= i < 8 ==> BitSteps(AFTER_8[i], 8) == AFTER_16[i]
  {
    hide BitSteps;
    AfterSixteenA();
    AfterSixteenB();
    AfterSixteenC();
    AfterSixteenD();
  }

  lemma UnitCombination(b: byte)
    ensures Combine(b, UNIT) == Wide(b)
  {
    hide Sum, Wide;
    UnitSum(b);
  }

  lemma UnitSum(b: byte)
    ensures Sum(Wide(b), 1, 2, 4, 8, 16, 32, 64, 128) == Wide(b)
  {
  }

  /** The eight words of each table written out, for facts about their bits. */
  function SumAfter8(b: byte): bv32 {
    Sum(Wide(b), 0x7707_3096, 0xEE0E_612C, 0x076D_C419, 0x0EDB_8832,
        0x1DB7_1064, 0x3B6E_20C8, 0x76DC_4190, 0xEDB8_8320)
  }

  function SumAfter16(b: byte): bv32 {
    Sum(Wide(b), 0x191B_3141, 0x3236_6282, 0x646C_C504, 0xC8D9_8A08,
        0x4AC2_1251, 0x9584_24A2, 0xF079_4F05, 0x3B83_984B)
  }

  lemma TablesWrittenOut(b: byte)
    ensures Combine(b, AFTER_8) == SumAfter8(b) && Combine(b, AFTER_16) == SumAfter16(b)
  {
    hide Sum, Wide;
  }

  /** The register after a byte, and after a byte and eight more steps, as sums of table entries. */
  lemma ByteByTable(b: byte)
    ensures BitSteps(Wide(b), 8) == Combine(b, AFTER_8)
    ensures BitSteps(Wide(b), 16) == Combine(b, AFTER_16)
  {
    hide BitSteps, Combine, Wide;
    UnitCombination(b);
    AfterEight();
    AfterSixteen();
    CombineAdvances(b, UNIT, 8, AFTER_8);
    CombineAdvances(b, AFTER_8, 8, AFTER_16);
    BitStepsAdd(Wide(b), 8, 8);
  }

  // ----- Bursts that straddle the stored checksum

  /** `d` bytes of data followed by a part of the stored checksum. */
  lemma SyndromeOfStraddle(w: nat, d: seq<byte>, c: seq<byte>)
    requires |d| + |c| == 4 && w + |d| == CRC_OFFSET
    ensures Syndrome(BurstError(w, d + c))
         == Xor32(BitSteps(LittleEndianWord(d), 8 * |d|), Join32(c + Zeros(4 - |c|)))
  {
    hide BitSteps, Register, Xor32, LittleEndianWord, Join32;
    var e := BurstError(w, d + c);
    assert e[..CRC_OFFSET] == Zeros(w) + d + Zeros(0);
    assert e[CRC_OFFSET..] == c + Zeros(4 - |c|);
    RegisterOfBurst(w, d, 0);
  }

  // Offset 29: one byte of data, three of the checksum.

  lemma LastDataByte(b: byte, p: byte, q: byte, r: byte)
    ensures Combine(b, AFTER_8) == Big32(p, q, r, 0) <==> b == 0 && p == 0 && q == 0 && r == 0
  {
    if Combine(b, AFTER_8) == Big32(p, q, r, 0) {
      LowByteOfTable(b);
    }
  }

  lemma LowByteOfTable(b: byte)
    ensures Combine(b, AFTER_8) & 0xFF == 0 <==> b == 0
  {
    TablesWrittenOut(b);
    hide Combine, SumAfter8;
    LowByteOfSum(b);
  }

  lemma LowByteOfSum(b: byte)
    ensures SumAfter8(b) & 0xFF == 0 <==> b == 0
  {
  }

  lemma StraddleAt29(b: seq<byte>)
    requires |b| == 4
    ensures Syndrome(BurstError(29, b)) == 0 <==> b == Zeros(4)
  {
    hide BitSteps, Xor32, LittleEndianWord, Join32, Combine, Syndrome, Big32;
    assert b == b[..1] + b[1..];
    SyndromeOfStraddle(29, b[..1], b[1..]);
    LittleEndianOfOne(b[..1]);
    ByteByTable(b[0]);
    var c := b[1..] + Zeros(1);
    Join32OfFour(c);
    XorZeroMeansEqual(Combine(b[0], AFTER_8), Join32(c));
    LastDataByte(b[0], b[1], b[2], b[3]);
  }

  // Offset 28: two bytes of data, two of the checksum.

  lemma LowBytesOfSum(x: bv32, y: bv32, p: byte, q: byte)
    requires Xor32(x, y) == Big32(p, q, 0, 0)
    ensures (x ^ y) & 0xFFFF == 0
  {
  }

  /** Sixteen equations in sixteen bits: they have one solution besides zero. */
  lemma BlindBytes(a: byte, b: byte)
    ensures (SumAfter16(a) ^ SumAfter8(b)) & 0xFFFF == 0 <==> (a == 0 && b == 0) || (a == 0x61 && b == 0xD8)
  {
  }

  lemma BlindConstants()
    ensures Xor32(SumAfter16(0), SumAfter8(0)) == 0
    ensures Xor32(SumAfter16(0x61), SumAfter8(0xD8)) == Big32(0xF4, 0xEE, 0, 0)
  {
  }

  lemma HighBytes(p: byte, q: byte, r: byte, s: byte)
    ensures Big32(p, q, 0, 0) == Big32(r, s, 0, 0) <==> p == r && q == s
    ensures Big32(0, 0, 0, 0) == 0
  {
  }

  lemma BlindPattern(a: byte, b: byte, p: byte, q: byte)
    ensures Xor32(Combine(a, AFTER_16), Combine(b, AFTER_8)) == Big32(p, q, 0, 0)
       <==> (a == 0 && b == 0 && p == 0 && q == 0) || (a == 0x61 && b == 0xD8 && p == 0xF4 && q == 0xEE)
  {
    TablesWrittenOut(a);
    TablesWrittenOut(b);
    hide Combine, SumAfter8, SumAfter16, Xor32, Big32;
    BlindConstants();
    HighBytes(p, q, 0, 0);
    HighBytes(p, q, 0xF4, 0xEE);
    BlindBytes(a, b);
    if Xor32(SumAfter16(a), SumAfter8(b)) == Big32(p, q, 0, 0) {
      LowBytesOfSum(SumAfter16(a), SumAfter8(b), p, q);
    }
  }

  function Up(b: byte): bv32 {
    Wide(b) << 8
  }

  lemma StepsOfTwoBytes(a: byte, b: byte)
    ensures BitSteps(Xor32(Wide(a), Up(b)), 16) == Xor32(BitSteps(Wide(a), 16), BitSteps(Wide(b), 8))
  {
    hide BitSteps, Xor32, Wide, Up;
    BitStepsXor(Wide(a), Up(b), 16);
    EightStepsOfUp(b);
    BitStepsAdd(Up(b), 8, 8);
  }

  lemma EightStepsOfUp(b: byte)
    ensures BitSteps(Up(b), 8) == Wide(b)
  {
    hide BitSteps;
    ByteUp(b);
    EightStepsOfHighBytes(Up(b));
  }

  lemma TwoByteWord(d: seq<byte>)
    requires |d| == 2
    ensures BitSteps(LittleEndianWord(d), 16) == Xor32(Combine(d[0], AFTER_16), Combine(d[1], AFTER_8))
  {
    hide BitSteps, Xor32, LittleEndianWord, Combine, Wide, Up;
    SumOfTwoBytes(d);
    StepsOfTwoBytes(d[0], d[1]);
    ByteByTable(d[0]);
    ByteByTable(d[1]);
  }

  lemma ByteUp(b: byte)
    ensures (Wide(b) << 8) & 0xFF == 0 && (Wide(b) << 8) >> 8 == Wide(b)
  {
  }

  lemma LittleEndianOfTwo(d: seq<byte>)
    requires |d| == 2
    ensures LittleEndianWord(d) == ByteThen(d[0], Wide(d[1]))
  {
    hide LittleEndianWord, Wide, ByteThen;
    LittleEndianFirst(d);
    LittleEndianOfOne(d[1..]);
  }

  lemma SumOfTwoBytes(d: seq<byte>)
    requires |d| == 2
    ensures LittleEndianWord(d) == Xor32(Wide(d[0]), Up(d[1]))
  {
    hide LittleEndianWord, ByteThen, Wide, Up, Xor32;
    LittleEndianOfTwo(d);
    ByteThenByte(d[0], d[1]);
  }

  lemma ByteThenByte(a: byte, b: byte)
    ensures ByteThen(a, Wide(b)) == Xor32(Wide(a), Up(b))
  {
    hide Wide, Xor32;
    XorByName(Wide(a), Up(b));
  }

  lemma StraddleAt28(b: seq<byte>)
    requires |b| == 4
    ensures Syndrome(BurstError(BLIND_OFFSET, b)) == 0 <==> b == Zeros(4) || b == BLIND_PATTERN
  {
    hide BitSteps, Xor32, LittleEndianWord, Join32, Combine, Syndrome, Big32;
    assert b == b[..2] + b[2..];
    SyndromeOfStraddle(28, b[..2], b[2..]);
    TwoByteWord(b[..2]);
    var c := b[2..] + Zeros(2);
    Join32OfFour(c);
    XorZeroMeansEqual(Xor32(Combine(b[0], AFTER_16), Combine(b[1], AFTER_8)), Join32(c));
    BlindPattern(b[0], b[1], b[2], b[3]);
  }

  // Offset 27: three bytes of data, one of the checksum.

  // The words that reach the bits of the top byte after 24 steps, and where they are after 8 and 16.
  const BEFORE_24: seq<bv32> :=
    [0x7555_A0F1, 0xEAAB_41E2, 0x0E27_8585, 0x1C4F_0B0A, 0x389E_1614, 0x713C_2C28, 0xE278_5850, 0x1F81_B6E1]
  const BEFORE_16: seq<bv32> :=
    [0xCACF_972A, 0x4EEE_2815, 0x9DDC_502A, 0xE0C9_A615, 0x1AE2_4A6B, 0x35C4_94D6, 0x6B89_29AC, 0xD712_5358]
  const BEFORE_8: seq<bv32> :=
    [0xDB71_0641, 0x6D93_0AC3, 0xDB26_1586, 0x6D3D_2D4D, 0xDA7A_5A9A, 0x6F85_B375, 0xDF0B_66EA, 0x6567_CB95]
  const TOP_BYTE: seq<bv32> :=
    [0x0100_0000, 0x0200_0000, 0x0400_0000, 0x0800_0000, 0x1000_0000, 0x2000_0000, 0x4000_0000, 0x8000_0000]

  lemma FirstEightA()
    ensures BitSteps(BEFORE_24[0], 8) == BEFORE_16[0] && BitSteps(BEFORE_24[1], 8) == BEFORE_16[1]
  {
  }

  lemma FirstEightB()
    ensures BitSteps(BEFORE_24[2], 8) == BEFORE_16[2] && BitSteps(BEFORE_24[3], 8) == BEFORE_16[3]
  {
  }

  lemma FirstEightC()
    ensures BitSteps(BEFORE_24[4], 8) == BEFORE_16[4] && BitSteps(BEFORE_24[5], 8) == BEFORE_16[5]
  {
  }

  lemma FirstEightD()
    ensures BitSteps(BEFORE_24[6], 8) == BEFORE_16[6] && BitSteps(BEFORE_24[7], 8) == BEFORE_16[7]
  {
  }

  lemma FirstEight()
    ensures forall i :: 0 <= i < 8 ==> BitSteps(BEFORE_24[i], 8) == BEFORE_16[i]
  {
    hide BitSteps;
    FirstEightA();
    FirstEightB();
    FirstEightC();
    FirstEightD();
  }

  lemma SecondEightA()
    ensures BitSteps(BEFORE_16[0], 8) == BEFORE_8[0] && BitSteps(BEFORE_16[1], 8) == BEFORE_8[1]
  {
  }

  lemma SecondEightB()
    ensures BitSteps(BEFORE_16[2], 8) == BEFORE_8[2] && BitSteps(BEFORE_16[3], 8) == BEFORE_8[3]
  {
  }

  lemma SecondEightC()
    ensures BitSteps(BEFORE_16[4], 8) == BEFORE_8[4] && BitSteps(BEFORE_16[5], 8) == BEFORE_8[5]
  {
  }

  lemma SecondEightD()
    ensures BitSteps(BEFORE_16[6], 8) == BEFORE_8[6] && BitSteps(BEFORE_16[7], 8) == BEFORE_8[7]
  {
  }

  lemma SecondEight()
    ensures forall i :: 0 <= i < 8 ==> BitSteps(BEFORE_16[i], 8) == BEFORE_8[i]
  {
    hide BitSteps;
    SecondEightA();
    SecondEightB();
    SecondEightC();
    SecondEightD();
  }

  lemma ThirdEightA()
    ensures BitSteps(BEFORE_8[0], 8) == TOP_BYTE[0] && BitSteps(BEFORE_8[1], 8) == TOP_BYTE[1]
  {
  }

  lemma ThirdEightB()
    ensures BitSteps(BEFORE_8[2], 8) == TOP_BYTE[2] && BitSteps(BEFORE_8[3], 8) == TOP_BYTE[3]
  {
  }

  lemma ThirdEightC()
    ensures BitSteps(BEFORE_8[4], 8) == TOP_BYTE[4] && BitSteps(BEFORE_8[5], 8) == TOP_BYTE[5]
  {
  }

  lemma ThirdEightD()
    ensures BitSteps(BEFORE_8[6], 8) == TOP_BYTE[6] && BitSteps(BEFORE_8[7], 8) == TOP_BYTE[7]
  {
  }

  lemma ThirdEight()
    ensures forall i :: 0 <= i < 8 ==> BitSteps(BEFORE_8[i], 8) == TOP_BYTE[i]
  {
    hide BitSteps;
    ThirdEightA();
    ThirdEightB();
    ThirdEightC();
    ThirdEightD();
  }

  lemma TopByteByTable(b: byte)
    ensures BitSteps(Combine(b, BEFORE_24), 24) == Big32(b, 0, 0, 0)
  {
    hide BitSteps, Combine, Big32;
    FirstEight();
    SecondEight();
    ThirdEight();
    CombineAdvances(b, BEFORE_24, 8, BEFORE_16);
    CombineAdvances(b, BEFORE_16, 8, BEFORE_8);
    CombineAdvances(b, BEFORE_8, 8, TOP_BYTE);
    BitStepsAdd(Combine(b, BEFORE_24), 8, 8);
    BitStepsAdd(Combine(b, BEFORE_24), 16, 8);
    TopByteCombination(b);
  }

  lemma TopByteCombination(b: byte)
    ensures Combine(b, TOP_BYTE) == Big32(b, 0, 0, 0)
  {
    hide Sum, Wide, Big32;
    TopByteSum(b);
  }

  lemma TopByteSum(b: byte)
    ensures Sum(Wide(b), 0x0100_0000, 0x0200_0000, 0x0400_0000, 0x0800_0000,
                0x1000_0000, 0x2000_0000, 0x4000_0000, 0x8000_0000) == Big32(b, 0, 0, 0)
  {
  }

  function SumBefore24(b: byte): bv32 {
    Sum(Wide(b), 0x7555_A0F1, 0xEAAB_41E2, 0x0E27_8585, 0x1C4F_0B0A,
        0x389E_1614, 0x713C_2C28, 0xE278_5850, 0x1F81_B6E1)
  }

  lemma TopByteOfTable(b: byte)
    ensures Combine(b, BEFORE_24) & 0xFF00_0000 == 0 <==> b == 0
    ensures b == 0 ==> Combine(b, BEFORE_24) == 0
  {
    TopByteOfSum(b);
    hide Sum, Wide;
  }

  lemma TopByteOfSum(b: byte)
    ensures SumBefore24(b) & 0xFF00_0000 == 0 <==> b == 0
    ensures b == 0 ==> SumBefore24(b) == 0
  {
  }

  lemma LittleEndianOfThree(d: seq<byte>)
    requires |d| == 3
    ensures LittleEndianWord(d) == 0 <==> d == Zeros(3)
  {
    hide LittleEndianWord, Wide, ByteThen;
    assert d[1..][1..] == d[2..];
    LittleEndianFirst(d);
    LittleEndianOfTwo(d[1..]);
    ThreeBytes(d[0], d[1], d[2]);
    assert d == [d[0], d[1], d[2]];
  }

  lemma ThreeBytes(a: byte, b: byte, c: byte)
    ensures ByteThen(a, ByteThen(b, Wide(c))) == 0 <==> a == 0 && b == 0 && c == 0
  {
  }

  lemma StraddleAt27(b: seq<byte>)
    requires |b| == 4
    ensures Syndrome(BurstError(27, b)) == 0 <==> b == Zeros(4)
  {
    hide BitSteps, Xor32, LittleEndianWord, Join32, Combine, Syndrome, Big32;
    var d, c := b[..3], b[3..];
    assert b == d + c;
    var x := LittleEndianWord(d);
    SyndromeOfStraddle(27, d, c);
    Join32OfFour(c + Zeros(3));
    XorZeroMeansEqual(BitSteps(x, 24), Big32(b[3], 0, 0, 0));
    TopByteByTable(b[3]);
    TopByteOfTable(b[3]);
    LittleEndianOfThree(d);
    if BitSteps(x, 24) == Big32(b[3], 0, 0, 0) {
      BitStepsInjective(x, Combine(b[3], BEFORE_24), 24);
    }
    assert b == Zeros(4) <==> d == Zeros(3) && b[3] == 0;
  }

  // ----- All windows

  /** The syndrome of a burst is zero only for no error and for the blind pattern at the blind offset. */
  lemma BurstSyndrome(w: nat, b: seq<byte>)
    requires w + 4 <= FRAME_SIZE && |b| == 4
    ensures Syndrome(BurstError(w, b)) == 0 <==> b == Zeros(4) || (w == BLIND_OFFSET && b == BLIND_PATTERN)
  {
    hide Syndrome, BurstError;
    if w <= 26 {
      DataBurst(w, b);
    } else if w == 27 {
      StraddleAt27(b);
    } else if w == BLIND_OFFSET {
      StraddleAt28(b);
    } else if w == 29 {
      StraddleAt29(b);
    } else {
      ChecksumBurst(b);
    }
  }

  /**
   A nonzero error confined to four consecutive bytes of a serialised frame goes unnoticed exactly when it is the blind
   pattern at the blind offset and the frame was acceptable to begin with.
   */
  lemma BurstAcceptedIff(frame: TelemetryFrame, w: nat, b: seq<byte>)
    requires w + 4 <= FRAME_SIZE && |b| == 4 && b != Zeros(4)
    ensures Deserialize(Corrupted(frame, BurstError(w, b))).frame.Some?
       <==> Supported(frame) && w == BLIND_OFFSET && b == BLIND_PATTERN
    ensures Supported(frame) && w >= SEQUENCE_OFFSET && !(w == BLIND_OFFSET && b == BLIND_PATTERN)
        ==> Deserialize(Corrupted(frame, BurstError(w, b))).error == ChecksumMismatch
  {
    hide Syndrome, Deserialize, Corrupted;
    var e := BurstError(w, b);
    BurstSyndrome(w, b);
    if Syndrome(e) == 0 {
      ZeroSyndromeAccepted(frame, e);
    } else {
      NonzeroSyndromeRejected(frame, e);
    }
  }
}
