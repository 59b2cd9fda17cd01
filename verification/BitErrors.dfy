/** Every error of one or two bits in a serialised frame is noticed. */
module BitErrors {
  import opened Words
  import opened Crc32
  import opened CrcAlgebra
  import opened Protocol
  import opened ProtocolCodec
  import opened ErrorDetection

  const TOP: bv32 := 0x8000_0000
  const FRAME_BITS: nat := 272

  function Mask(bit: nat): byte
    requires bit < 8
  {
    match bit
    case 0 => 1
    case 1 => 2
    case 2 => 4
    case 3 => 8
    case 4 => 16
    case 5 => 32
    case 6 => 64
    case 7 => 128
  }

  function ByteError(i: nat, b: byte): (e: seq<byte>)
    requires i < FRAME_SIZE
    ensures |e| == FRAME_SIZE
  {
    Zeros(i) + [b] + Zeros(FRAME_SIZE - 1 - i)
  }

  /** One flipped bit: bit `p % 8` of byte `p / 8`. */
  function BitError(p: nat): (e: seq<byte>)
    requires p < FRAME_BITS
    ensures |e| == FRAME_SIZE
  {
    ByteError(p / 8, Mask(p % 8))
  }

  /** How many bit steps lead from the top bit of the register to the syndrome of bit `p`. */
  function Exponent(p: nat): (k: nat)
    requires p < FRAME_BITS
    ensures k < FRAME_BITS
  {
    if p < 240 then 271 - p else 7 + 8 * ((p - 240) / 8) - p % 8
  }

  lemma ExponentInjective(p: nat, q: nat)
    requires p < FRAME_BITS && q < FRAME_BITS && Exponent(p) == Exponent(q)
    ensures p == q
  {
  }

  // ----- Syndromes of single bytes

  lemma {:induction false} RegisterOfZeros(x: bv32, n: nat)
    ensures Register(x, Zeros(n)) == BitSteps(x, 8 * n)
    decreases n
  {
    hide BitSteps, ByteStep;
    if n == 0 {
      NoStepsLeft(x);
    } else {
      assert Zeros(n)[1..] == Zeros(n - 1);
      ByteStepOfZero(x);
      RegisterOfZeros(ByteStep(x, 0), n - 1);
      BitStepsAdd(x, 8, 8 * (n - 1));
    }
  }

  lemma ByteStepOfZero(x: bv32)
    ensures ByteStep(x, 0) == BitSteps(x, 8)
  {
    hide BitSteps;
    ByteStepIsBitSteps(x, 0);
    XorUnits(x);
    assert Wide(0) == 0;
  }

  lemma SyndromeOfDataByte(i: nat, b: byte)
    requires i < CRC_OFFSET
    ensures Syndrome(ByteError(i, b)) == BitSteps(Wide(b), 8 * (CRC_OFFSET - i))
  {
    hide BitSteps, ByteStep, Register, Join32, Xor32, Wide;
    var e := ByteError(i, b);
    var after := CRC_OFFSET - 1 - i;
    assert e[..CRC_OFFSET] == Zeros(i) + [b] + Zeros(after);
    assert e[CRC_OFFSET..] == Zeros(4);
    Join32OfZeros();
    RegisterConcat(0, Zeros(i) + [b], Zeros(after));
    RegisterSnoc(0, Zeros(i), b);
    RegisterOfZeros(0, i);
    BitStepsZero(8 * i);
    ByteStepIsBitSteps(0, b);
    XorUnits(Wide(b));
    RegisterOfZeros(BitSteps(Wide(b), 8), after);
    BitStepsAdd(Wide(b), 8, 8 * after);
    XorUnits(BitSteps(Wide(b), 8 * (CRC_OFFSET - i)));
  }

  lemma Join32OfZeros()
    ensures Join32(Zeros(4)) == 0
  {
    hide Join32;
    Join32OfFour(Zeros(4));
    assert Big32(0, 0, 0, 0) == 0;
  }

  lemma SyndromeOfCrcBytes(e: seq<byte>)
    requires |e| == FRAME_SIZE && e[..CRC_OFFSET] == Zeros(CRC_OFFSET)
    ensures Syndrome(e) == Join32(e[CRC_OFFSET..])
  {
    hide BitSteps, Register, Join32, Xor32;
    RegisterOfZeros(0, CRC_OFFSET);
    BitStepsZero(8 * CRC_OFFSET);
    XorUnits(Join32(e[CRC_OFFSET..]));
  }

  // ----- Syndromes of single bits

  lemma ZeroHighBytes(b: byte)
    ensures Big32(0, 0, 0, b) == Wide(b)
  {
  }

  lemma TopFalls()
    ensures BitSteps(TOP, 1) == 0x4000_0000 && BitSteps(TOP, 2) == 0x2000_0000 && BitSteps(TOP, 3) == 0x1000_0000
    ensures BitSteps(TOP, 4) == 0x0800_0000 && BitSteps(TOP, 5) == 0x0400_0000 && BitSteps(TOP, 6) == 0x0200_0000
    ensures BitSteps(TOP, 7) == 0x0100_0000
  {
  }

  lemma TopMask(bit: nat)
    requires bit < 8
    ensures Big32(Mask(bit), 0, 0, 0) == BitSteps(TOP, 7 - bit)
  {
    hide BitSteps;
    NoStepsLeft(TOP);
    TopFalls();
  }

  lemma OneByteDown(b: byte)
    ensures Big32(b, 0, 0, 0) & 0xFF == 0 && Big32(b, 0, 0, 0) >> 8 == Big32(0, b, 0, 0)
    ensures Big32(0, b, 0, 0) & 0xFF == 0 && Big32(0, b, 0, 0) >> 8 == Big32(0, 0, b, 0)
    ensures Big32(0, 0, b, 0) & 0xFF == 0 && Big32(0, 0, b, 0) >> 8 == Big32(0, 0, 0, b)
  {
  }

  /** Bit `bit` of the checksum byte `m`, counted from the most significant byte. */
  lemma StoredBits(bit: nat)
    requires bit < 8
    ensures Big32(Mask(bit), 0, 0, 0) == BitSteps(TOP, 7 - bit)
    ensures Big32(0, Mask(bit), 0, 0) == BitSteps(TOP, 15 - bit)
    ensures Big32(0, 0, Mask(bit), 0) == BitSteps(TOP, 23 - bit)
    ensures Big32(0, 0, 0, Mask(bit)) == BitSteps(TOP, 31 - bit)
  {
    hide BitSteps, Big32, Mask;
    var b := Mask(bit);
    TopMask(bit);
    OneByteDown(b);
    EightStepsOfHighBytes(Big32(b, 0, 0, 0));
    EightStepsOfHighBytes(Big32(0, b, 0, 0));
    EightStepsOfHighBytes(Big32(0, 0, b, 0));
    BitStepsAdd(TOP, 7 - bit, 8);
    BitStepsAdd(TOP, 15 - bit, 8);
    BitStepsAdd(TOP, 23 - bit, 8);
  }

  lemma SyndromeOfDataBit(p: nat)
    requires p < 240
    ensures Syndrome(BitError(p)) == BitSteps(TOP, Exponent(p))
  {
    hide BitSteps, Syndrome, Mask, Wide, Big32;
    var i, bit := p / 8, p % 8;
    SyndromeOfDataByte(i, Mask(bit));
    ZeroHighBytes(Mask(bit));
    StoredBits(bit);
    BitStepsAdd(TOP, 31 - bit, 8 * (CRC_OFFSET - i));
  }

  lemma SyndromeOfStoredBit(p: nat)
    requires 240 <= p < FRAME_BITS
    ensures Syndrome(BitError(p)) == BitSteps(TOP, Exponent(p))
  {
    hide BitSteps, Syndrome, Mask, Join32, Big32, ByteError;
    var i, b := (p - 240) / 8, Mask(p % 8);
    assert p / 8 == CRC_OFFSET + i;
    StoredByte(i, b);
    SyndromeOfCrcBytes(BitError(p));
    Join32OfFour(Zeros(i) + [b] + Zeros(3 - i));
    StoredBits(p % 8);
  }

  lemma StoredByte(i: nat, b: byte)
    requires i < 4
    ensures ByteError(CRC_OFFSET + i, b)[..CRC_OFFSET] == Zeros(CRC_OFFSET)
    ensures ByteError(CRC_OFFSET + i, b)[CRC_OFFSET..] == Zeros(i) + [b] + Zeros(3 - i)
  {
  }

  lemma SyndromeOfBit(p: nat)
    requires p < FRAME_BITS
    ensures Syndrome(BitError(p)) == BitSteps(TOP, Exponent(p))
  {
    hide BitSteps, Syndrome;
    if p < 240 {
      SyndromeOfDataBit(p);
    } else {
      SyndromeOfStoredBit(p);
    }
  }

  // ----- The orbit of the top bit

  predicate StaysAway(x: bv32, n: nat)
    decreases n
  {
    n == 0 || (BitStep(x) != TOP && StaysAway(BitStep(x), n - 1))
  }

  lemma {:induction false} StaysAwayLonger(x: bv32, m: nat, n: nat)
    requires StaysAway(x, m) && StaysAway(BitSteps(x, m), n)
    ensures StaysAway(x, m + n)
    decreases m
  {
    hide BitStep;
    if m > 0 {
      StaysAwayLonger(BitStep(x), m - 1, n);
    }
  }

  lemma {:induction false} StaysAwayAt(x: bv32, n: nat, k: nat)
    requires StaysAway(x, n) && 1 <= k <= n
    ensures BitSteps(x, k) != TOP
    decreases n
  {
    hide BitStep;
    if k == 1 {
      assert BitSteps(x, 1) == BitStep(x);
    } else {
      StaysAwayAt(BitStep(x), n - 1, k - 1);
    }
  }

  /** `n` steps lead from `x` to `y` without meeting the top bit again. */
  predicate Hop(x: bv32, n: nat, y: bv32) {
    BitSteps(x, n) == y && StaysAway(x, n)
  }

  lemma HopsJoin(x: bv32, m: nat, y: bv32, n: nat, z: bv32)
    requires Hop(x, m, y) && Hop(y, n, z)
    ensures Hop(x, m + n, z)
  {
    hide BitStep, BitSteps, StaysAway;
    BitStepsAdd(x, m, n);
    StaysAwayLonger(x, m, n);
  }

  /** The same for eight steps, written out. */
  predicate EightSteps(x: bv32, y: bv32) {
    var a := BitStep(x);
    var b := BitStep(a);
    var c := BitStep(b);
    var d := BitStep(c);
    var e := BitStep(d);
    var f := BitStep(e);
    var g := BitStep(f);
    BitStep(g) == y &&
    a != TOP && b != TOP && c != TOP && d != TOP && e != TOP && f != TOP && g != TOP && y != TOP
  }

  lemma EightStepsAreAHop(x: bv32, y: bv32)
    requires EightSteps(x, y)
    ensures Hop(x, 8, y)
  {
    hide BitStep;
    var d := BitStep(BitStep(BitStep(BitStep(x))));
    assert Hop(x, 4, d) && Hop(d, 4, y);
    HopsJoin(x, 4, d, 4, y);
  }

  /** Places on the orbit eight steps apart; each list starts where the one before it ends. */
  const ORBIT_A: seq<bv32> := [0x8000_0000, 0x0080_0000, 0x0000_8000, 0x0000_0080, 0xEDB8_8320]
  const ORBIT_B: seq<bv32> := [0xEDB8_8320, 0x3B83_984B, 0xE135_1B80, 0xED59_B63B, 0xB1E6_B092]
  const ORBIT_C: seq<bv32> := [0xB1E6_B092, 0x1EB0_14D8, 0x8816_EAF2, 0x533B_85DA, 0x6655_004F]
  const ORBIT_D: seq<bv32> := [0x6655_004F, 0xE605_0901, 0x77E1_359F, 0x60C7_6FE0, 0xA06A_2517]
  const ORBIT_E: seq<bv32> := [0xA06A_2517, 0x8373_EFE2, 0x4E87_F0BB, 0x5CFD_EDF4, 0xBA8C_CBE8]
  const ORBIT_F: seq<bv32> := [0xBA8C_CBE8, 0xAE6B_E681, 0x9A11_D850, 0x6BF1_402C, 0x32B3_9DA3]
  const ORBIT_G: seq<bv32> := [0x32B3_9DA3, 0x4FED_41CF, 0x0B94_3260, 0x4DB9_F56A, 0xAD2A_31B3]
  const ORBIT_H: seq<bv32> := [0xAD2A_31B3, 0x52C5_C807, 0x9E36_506B, 0xDAFE_8E80, 0xED62_7DAE]
  const ORBIT_I: seq<bv32> := [0xED62_7DAE, 0x3183_EC92, 0x1E30_7184]

  predicate Trail(k: seq<bv32>) {
    forall i :: 0 <= i < |k| - 1 ==> EightSteps(k[i], k[i + 1])
  }

  lemma TrailA()
    ensures Trail(ORBIT_A)
  {
    hide EightSteps;
    FirstSteps();
    SecondSteps();
    ThirdSteps();
  }

  lemma FirstSteps()
    ensures EightSteps(ORBIT_A[0], ORBIT_A[1])
  {
  }

  lemma SecondSteps()
    ensures EightSteps(ORBIT_A[1], ORBIT_A[2])
  {
  }

  lemma ThirdSteps()
    ensures EightSteps(ORBIT_A[2], ORBIT_A[3]) && EightSteps(ORBIT_A[3], ORBIT_A[4])
  {
  }

  lemma TrailB()
    ensures Trail(ORBIT_B)
  {
    assert EightSteps(ORBIT_B[0], ORBIT_B[1]);
    assert EightSteps(ORBIT_B[1], ORBIT_B[2]);
    assert EightSteps(ORBIT_B[2], ORBIT_B[3]);
    assert EightSteps(ORBIT_B[3], ORBIT_B[4]);
  }

  lemma TrailC()
    ensures Trail(ORBIT_C)
  {
    assert EightSteps(ORBIT_C[0], ORBIT_C[1]);
    assert EightSteps(ORBIT_C[1], ORBIT_C[2]);
    assert EightSteps(ORBIT_C[2], ORBIT_C[3]);
    assert EightSteps(ORBIT_C[3], ORBIT_C[4]);
  }

  lemma TrailD()
    ensures Trail(ORBIT_D)
  {
    assert EightSteps(ORBIT_D[0], ORBIT_D[1]);
    assert EightSteps(ORBIT_D[1], ORBIT_D[2]);
    assert EightSteps(ORBIT_D[2], ORBIT_D[3]);
    assert EightSteps(ORBIT_D[3], ORBIT_D[4]);
  }

  lemma TrailE()
    ensures Trail(ORBIT_E)
  {
    assert EightSteps(ORBIT_E[0], ORBIT_E[1]);
    assert EightSteps(ORBIT_E[1], ORBIT_E[2]);
    assert EightSteps(ORBIT_E[2], ORBIT_E[3]);
    assert EightSteps(ORBIT_E[3], ORBIT_E[4]);
  }

  lemma TrailF()
    ensures Trail(ORBIT_F)
  {
    assert EightSteps(ORBIT_F[0], ORBIT_F[1]);
    assert EightSteps(ORBIT_F[1], ORBIT_F[2]);
    assert EightSteps(ORBIT_F[2], ORBIT_F[3]);
    assert EightSteps(ORBIT_F[3], ORBIT_F[4]);
  }

  lemma TrailG()
    ensures Trail(ORBIT_G)
  {
    assert EightSteps(ORBIT_G[0], ORBIT_G[1]);
    assert EightSteps(ORBIT_G[1], ORBIT_G[2]);
    assert EightSteps(ORBIT_G[2], ORBIT_G[3]);
    assert EightSteps(ORBIT_G[3], ORBIT_G[4]);
  }

  lemma TrailH()
    ensures Trail(ORBIT_H)
  {
    assert EightSteps(ORBIT_H[0], ORBIT_H[1]);
    assert EightSteps(ORBIT_H[1], ORBIT_H[2]);
    assert EightSteps(ORBIT_H[2], ORBIT_H[3]);
    assert EightSteps(ORBIT_H[3], ORBIT_H[4]);
  }

  lemma TrailI()
    ensures Trail(ORBIT_I)
  {
    assert EightSteps(ORBIT_I[0], ORBIT_I[1]);
    assert EightSteps(ORBIT_I[1], ORBIT_I[2]);
  }

  lemma {:induction false} TrailIsAHop(k: seq<bv32>)
    requires |k| > 1 && Trail(k)
    ensures Hop(k[0], 8 * (|k| - 1), k[|k| - 1])
    decreases |k|
  {
    hide Hop, EightSteps;
    var n := |k| - 1;
    EightStepsAreAHop(k[n - 1], k[n]);
    if n > 1 {
      assert Trail(k[..n]);
      TrailIsAHop(k[..n]);
      HopsJoin(k[0], 8 * (n - 1), k[n - 1], 8, k[n]);
    }
  }

  lemma TrailJoins(n: nat, k: seq<bv32>, m: nat, l: seq<bv32>)
    requires |k| > 1 && |l| > 1 && k[|k| - 1] == l[0] && Hop(TOP, n, k[|k| - 1]) && Trail(l) && m == 8 * (|l| - 1)
    ensures Hop(TOP, n + m, l[|l| - 1])
  {
    hide Hop, Trail;
    TrailIsAHop(l);
    HopsJoin(TOP, n, l[0], m, l[|l| - 1]);
  }

  /** The nine lists are one trail of 272 steps from the top bit. */
  lemma AllTrails()
    ensures Trail(ORBIT_A) && Hop(TOP, 0, ORBIT_A[0])
    ensures Trail(ORBIT_B) && Hop(TOP, 32, ORBIT_B[0])
    ensures Trail(ORBIT_C) && Hop(TOP, 64, ORBIT_C[0])
    ensures Trail(ORBIT_D) && Hop(TOP, 96, ORBIT_D[0])
    ensures Trail(ORBIT_E) && Hop(TOP, 128, ORBIT_E[0])
    ensures Trail(ORBIT_F) && Hop(TOP, 160, ORBIT_F[0])
    ensures Trail(ORBIT_G) && Hop(TOP, 192, ORBIT_G[0])
    ensures Trail(ORBIT_H) && Hop(TOP, 224, ORBIT_H[0])
    ensures Trail(ORBIT_I) && Hop(TOP, 256, ORBIT_I[0])
    ensures Hop(TOP, 272, ORBIT_I[2])
  {
    assert Hop(TOP, 0, TOP);
    hide Hop, Trail;
    TrailA();
    TrailB();
    TrailC();
    TrailD();
    TrailE();
    TrailF();
    TrailG();
    TrailH();
    TrailI();
    TrailIsAHop(ORBIT_A);
    TrailJoins(32, ORBIT_A, 32, ORBIT_B);
    TrailJoins(64, ORBIT_B, 32, ORBIT_C);
    TrailJoins(96, ORBIT_C, 32, ORBIT_D);
    TrailJoins(128, ORBIT_D, 32, ORBIT_E);
    TrailJoins(160, ORBIT_E, 32, ORBIT_F);
    TrailJoins(192, ORBIT_F, 32, ORBIT_G);
    TrailJoins(224, ORBIT_G, 32, ORBIT_H);
    TrailJoins(256, ORBIT_H, 16, ORBIT_I);
  }

  /** Returning to the start takes more steps than a frame has bits. */
  lemma OrbitIsLong()
    ensures StaysAway(TOP, 272)
  {
    hide Trail, StaysAway;
    AllTrails();
  }

  lemma PowersDistinct(a: nat, b: nat)
    requires a < b < FRAME_BITS
    ensures BitSteps(TOP, a) != BitSteps(TOP, b)
  {
    hide BitSteps, StaysAway;
    if BitSteps(TOP, a) == BitSteps(TOP, b) {
      BitStepsAdd(TOP, b - a, a);
      BitStepsInjective(TOP, BitSteps(TOP, b - a), a);
      OrbitIsLong();
      StaysAwayAt(TOP, 272, b - a);
    }
  }

  lemma PowerNonzero(a: nat)
    ensures BitSteps(TOP, a) != 0
  {
    hide BitSteps;
    if BitSteps(TOP, a) == 0 {
      BitStepsZero(a);
      BitStepsInjective(TOP, 0, a);
    }
  }

  lemma XorZeroMeansEqual(x: bv32, y: bv32)
    ensures Xor32(x, y) == 0 <==> x == y
  {
    hide Xor32;
    XorUnits(y);
    if Xor32(x, y) == 0 {
      XorCancel(x, y, y);
    }
  }

  /** One flipped bit anywhere in any serialised frame is noticed. */
  lemma OneBitDetected(frame: TelemetryFrame, p: nat)
    requires p < FRAME_BITS
    ensures Deserialize(Corrupted(frame, BitError(p))).frame.None?
  {
    hide BitSteps, Syndrome, Deserialize, Corrupted, BitError, Exponent;
    SyndromeOfBit(p);
    PowerNonzero(Exponent(p));
    NonzeroSyndromeRejected(frame, BitError(p));
  }

  /** Two flipped bits anywhere in any serialised frame are noticed. */
  lemma TwoBitsDetected(frame: TelemetryFrame, p: nat, q: nat)
    requires p < FRAME_BITS && q < FRAME_BITS && p != q
    ensures Deserialize(Corrupted(frame, XorBytes(BitError(p), BitError(q)))).frame.None?
  {
    hide BitSteps, Syndrome, Deserialize, Corrupted, BitError, Exponent, Xor32, Xor8;
    var d, e := BitError(p), BitError(q);
    var a, b := Exponent(p), Exponent(q);
    SyndromeOfBit(p);
    SyndromeOfBit(q);
    SyndromeXor(d, e);
    if a == b {
      ExponentInjective(p, q);
    } else if a < b {
      PowersDistinct(a, b);
    } else {
      PowersDistinct(b, a);
    }
    XorZeroMeansEqual(BitSteps(TOP, a), BitSteps(TOP, b));
    NonzeroSyndromeRejected(frame, XorBytes(d, e));
  }
}
