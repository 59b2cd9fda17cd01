/**
 The algebra behind the checksum: the bit step is a linear bijection of the 32-bit words, so the register is affine
 in the message and any four consecutive bytes are in bijection with the resulting checksum.
 */
module CrcAlgebra {
  import opened Words
  import opened Crc32

  // ----- Exclusive or as a group

  lemma XorLaws(x: bv32, y: bv32, z: bv32)
    ensures Xor32(x, y) == Xor32(y, x)
    ensures Xor32(Xor32(x, y), z) == Xor32(x, Xor32(y, z))
    ensures Xor32(x, 0) == x
    ensures Xor32(x, x) == 0
  {
    hide Xor32;
    XorCommutes(x, y);
    XorAssociates(x, y, z);
    XorUnits(x);
  }

  lemma XorCommutes(x: bv32, y: bv32)
    ensures Xor32(x, y) == Xor32(y, x)
  {
  }

  lemma XorAssociates(x: bv32, y: bv32, z: bv32)
    ensures Xor32(Xor32(x, y), z) == Xor32(x, Xor32(y, z))
  {
  }

  lemma XorUnits(x: bv32)
    ensures Xor32(x, 0) == x == Xor32(0, x)
    ensures Xor32(x, x) == 0
  {
  }

  lemma XorCancel(x: bv32, y: bv32, b: bv32)
    requires Xor32(x, b) == Xor32(y, b)
    ensures x == y
  {
    hide Xor32;
    XorLaws(x, b, b);
    XorLaws(y, b, b);
    XorUnits(b);
  }

  lemma XorInterchange(x: bv32, y: bv32, a: bv32, b: bv32)
    ensures Xor32(Xor32(x, y), Xor32(a, b)) == Xor32(Xor32(x, a), Xor32(y, b))
  {
    hide Xor32;
    XorAssociates(x, y, Xor32(a, b));
    XorAssociates(y, a, b);
    XorCommutes(y, a);
    XorAssociates(a, y, b);
    XorAssociates(x, a, Xor32(y, b));
  }

  // ----- The bit step

  lemma BitStepXor(x: bv32, y: bv32)
    ensures BitStep(Xor32(x, y)) == Xor32(BitStep(x), BitStep(y))
  {
    assert x & 1 == 0 || x & 1 == 1;
    assert y & 1 == 0 || y & 1 == 1;
  }

  function BitStepInverse(y: bv32): bv32 {
    if y & 0x8000_0000 == 0 then y << 1 else ((y ^ POLYNOMIAL) << 1) | 1
  }

  lemma BitStepBranches(x: bv32)
    ensures BitStep(x) == if x & 1 == 0 then x >> 1 else (x >> 1) ^ POLYNOMIAL
  {
    assert x & 1 == 0 || x & 1 == 1;
  }

  lemma InverseAfter(x: bv32)
    ensures BitStepInverse(BitStep(x)) == x
  {
    hide BitStep;
    BitStepBranches(x);
  }

  lemma InverseBefore(y: bv32)
    ensures BitStep(BitStepInverse(y)) == y
  {
    hide BitStep, BitStepInverse;
    var x := BitStepInverse(y);
    BitStepBranches(x);
    InverseBranches(y, x);
  }

  lemma InverseBranches(y: bv32, x: bv32)
    requires x == BitStepInverse(y)
    ensures if x & 1 == 0 then x >> 1 == y else (x >> 1) ^ POLYNOMIAL == y
  {
    if y & 0x8000_0000 == 0 {
      ShiftUpAndDown(y);
    } else {
      TapAndShiftUp(y);
    }
  }

  lemma ShiftUpAndDown(y: bv32)
    requires y & 0x8000_0000 == 0
    ensures (y << 1) >> 1 == y && (y << 1) & 1 == 0
  {
  }

  lemma TapAndShiftUp(y: bv32)
    requires y & 0x8000_0000 != 0
    ensures ((((y ^ POLYNOMIAL) << 1) | 1) >> 1) ^ POLYNOMIAL == y
    ensures (((y ^ POLYNOMIAL) << 1) | 1) & 1 == 1
  {
  }

  function BitStepsInverse(y: bv32, n: nat): bv32
    decreases n
  {
    if n == 0 then y else BitStepInverse(BitStepsInverse(y, n - 1))
  }

  // ----- Many bit steps

  lemma {:induction false} BitStepsXor(x: bv32, y: bv32, n: nat)
    ensures BitSteps(Xor32(x, y), n) == Xor32(BitSteps(x, n), BitSteps(y, n))
    decreases n
  {
    hide BitStep, Xor32;
    if n > 0 {
      BitStepXor(x, y);
      BitStepsXor(BitStep(x), BitStep(y), n - 1);
    }
  }

  lemma {:induction false} BitStepsZero(n: nat)
    ensures BitSteps(0, n) == 0
  {
    if n > 0 {
      assert BitStep(0) == 0;
      BitStepsZero(n - 1);
    }
  }

  lemma {:induction false} BitStepsAdd(x: bv32, m: nat, n: nat)
    ensures BitSteps(BitSteps(x, m), n) == BitSteps(x, m + n)
    decreases m
  {
    hide BitStep;
    if m > 0 {
      BitStepsAdd(BitStep(x), m - 1, n);
    }
  }

  lemma {:induction false} BitStepsBijective(x: bv32, n: nat)
    ensures BitStepsInverse(BitSteps(x, n), n) == x
    ensures BitSteps(BitStepsInverse(x, n), n) == x
    decreases n
  {
    hide BitStep, BitStepInverse;
    if n > 0 {
      BitStepsBijective(BitStep(x), n - 1);
      InverseAfter(x);
      InverseBefore(BitStepsInverse(x, n - 1));
      BitStepsBijective(x, n - 1);
    }
  }

  lemma BitStepsInjective(x: bv32, y: bv32, n: nat)
    requires BitSteps(x, n) == BitSteps(y, n)
    ensures x == y
  {
    hide BitSteps, BitStepsInverse;
    BitStepsBijective(x, n);
    BitStepsBijective(y, n);
  }

  // ----- Bytes

  function Wide(b: byte): bv32 {
    b as bv32
  }

  lemma WideXor(a: byte, b: byte)
    ensures Wide(Xor8(a, b)) == Xor32(Wide(a), Wide(b))
  {
  }

  lemma ByteStepIsBitSteps(x: bv32, b: byte)
    ensures ByteStep(x, b) == BitSteps(Xor32(x, Wide(b)), 8)
  {
    hide BitSteps;
  }

  lemma ByteStepXor(x: bv32, y: bv32, a: byte, b: byte)
    ensures ByteStep(Xor32(x, y), Xor8(a, b)) == Xor32(ByteStep(x, a), ByteStep(y, b))
  {
    hide BitSteps, Xor32, Xor8, Wide, ByteStep;
    WideXor(a, b);
    XorInterchange(x, y, Wide(a), Wide(b));
    ByteStepIsBitSteps(x, a);
    ByteStepIsBitSteps(y, b);
    ByteStepIsBitSteps(Xor32(x, y), Xor8(a, b));
    BitStepsXor(Xor32(x, Wide(a)), Xor32(y, Wide(b)), 8);
  }

  /** The register is linear in the pair of its start value and the message. */
  lemma {:induction false} RegisterXor(x: bv32, y: bv32, a: seq<byte>, b: seq<byte>)
    requires |a| == |b|
    ensures Register(Xor32(x, y), XorBytes(a, b)) == Xor32(Register(x, a), Register(y, b))
    decreases |a|
  {
    hide ByteStep, Xor32, Xor8;
    if |a| > 0 {
      ByteStepXor(x, y, a[0], b[0]);
      RegisterXor(ByteStep(x, a[0]), ByteStep(y, b[0]), a[1..], b[1..]);
      assert XorBytes(a, b)[1..] == XorBytes(a[1..], b[1..]);
    }
  }

  lemma FinalXorOfThree(x: bv32, y: bv32, z: bv32)
    ensures ((x ^ y) ^ z) ^ FINAL_XOR == ((x ^ FINAL_XOR) ^ (y ^ FINAL_XOR)) ^ (z ^ FINAL_XOR)
  {
  }

  /** The checksum is affine: it distributes over the exclusive or of three strings of one length. */
  lemma CrcOfThree(a: seq<byte>, b: seq<byte>, c: seq<byte>)
    requires |a| == |b| == |c|
    ensures Crc(XorBytes(XorBytes(a, b), c)) == Xor32(Xor32(Crc(a), Crc(b)), Crc(c))
  {
    hide Register;
    var i := INITIAL_VALUE;
    assert Xor32(Xor32(i, i), i) == i;
    RegisterXor(i, i, a, b);
    RegisterXor(Xor32(i, i), i, XorBytes(a, b), c);
    FinalXorOfThree(Register(i, a), Register(i, b), Register(i, c));
  }

  lemma {:induction false} RegisterInjectiveInStart(x: bv32, y: bv32, bytes: seq<byte>)
    requires Register(x, bytes) == Register(y, bytes)
    ensures x == y
    decreases |bytes|
  {
    hide ByteStep, BitSteps, Xor32, Wide;
    if |bytes| > 0 {
      var b := bytes[0];
      RegisterInjectiveInStart(ByteStep(x, b), ByteStep(y, b), bytes[1..]);
      ByteStepIsBitSteps(x, b);
      ByteStepIsBitSteps(y, b);
      BitStepsInjective(Xor32(x, Wide(b)), Xor32(y, Wide(b)), 8);
      XorCancel(x, y, Wide(b));
    }
  }

  // ----- Up to four bytes as one word

  function Half(x: bv32): bv32 {
    x >> 1
  }

  predicate Even(x: bv32) {
    x & 1 == 0
  }

  lemma EvenStep(x: bv32)
    requires Even(x)
    ensures BitStep(x) == Half(x)
  {
  }

  lemma HalvesOfHighBytes(x: bv32)
    requires x & 0xFF == 0
    ensures Even(x) && Even(Half(x)) && Even(Half(Half(x))) && Even(Half(Half(Half(x))))
    ensures var y := Half(Half(Half(Half(x))));
            && Even(y) && Even(Half(y)) && Even(Half(Half(y))) && Even(Half(Half(Half(y))))
            && Half(Half(Half(Half(y)))) == x >> 8
  {
  }

  lemma FourEvenSteps(x: bv32)
    requires Even(x) && Even(Half(x)) && Even(Half(Half(x))) && Even(Half(Half(Half(x))))
    ensures BitSteps(x, 4) == Half(Half(Half(Half(x))))
  {
    hide BitStep, Half, Even;
    EvenStep(x);
    EvenStep(Half(x));
    EvenStep(Half(Half(x)));
    EvenStep(Half(Half(Half(x))));
    assert BitSteps(x, 4) == BitStep(BitStep(BitStep(BitStep(x))));
  }

  /** A word whose low byte is clear only moves down by a byte. */
  lemma EightStepsOfHighBytes(x: bv32)
    requires x & 0xFF == 0
    ensures BitSteps(x, 8) == x >> 8
  {
    hide BitSteps, Half, Even;
    HalvesOfHighBytes(x);
    FourEvenSteps(x);
    FourEvenSteps(Half(Half(Half(Half(x)))));
    BitStepsAdd(x, 4, 4);
  }

  /** The byte `b` below the word `rest`. */
  function ByteThen(b: byte, rest: bv32): bv32 {
    Wide(b) ^ (rest << 8)
  }

  /** The word whose least significant byte is the first of the string. */
  function LittleEndianWord(w: seq<byte>): (x: bv32)
    requires |w| <= 4
    ensures |w| == 0 ==> x == 0
    ensures |w| <= 1 ==> x & 0xFFFF_FF00 == 0
    ensures |w| <= 2 ==> x & 0xFFFF_0000 == 0
    ensures |w| <= 3 ==> x & 0xFF00_0000 == 0
  {
    if |w| == 0 then 0 else ByteThen(w[0], LittleEndianWord(w[1..]))
  }

  function LittleEndianBytes(x: bv32): (w: seq<byte>)
    ensures |w| == 4
  {
    [(x & 0xFF) as byte, ((x >> 8) & 0xFF) as byte, ((x >> 16) & 0xFF) as byte, ((x >> 24) & 0xFF) as byte]
  }

  function Little32(a: byte, b: byte, c: byte, d: byte): bv32 {
    ByteThen(a, ByteThen(b, ByteThen(c, Wide(d))))
  }

  lemma LittleEndianFirst(w: seq<byte>)
    requires 0 < |w| <= 4
    ensures LittleEndianWord(w) == ByteThen(w[0], LittleEndianWord(w[1..]))
  {
    hide ByteThen;
  }

  lemma LittleEndianOfFour(w: seq<byte>)
    requires |w| == 4
    ensures LittleEndianWord(w) == Little32(w[0], w[1], w[2], w[3])
  {
    hide Wide, LittleEndianWord, ByteThen;
    assert w[1..][1..] == w[2..] && w[2..][1..] == w[3..];
    LittleEndianFirst(w);
    LittleEndianFirst(w[1..]);
    LittleEndianFirst(w[2..]);
    LittleEndianOfOne(w[3..]);
  }

  lemma LittleEndianOfOne(w: seq<byte>)
    requires |w| == 1
    ensures LittleEndianWord(w) == Wide(w[0])
  {
    hide Wide;
    assert LittleEndianWord(w[1..]) == 0;
    ZeroHigh(Wide(w[0]));
  }

  lemma ZeroHigh(x: bv32)
    ensures x ^ (0 << 8) == x
  {
  }

  lemma LittleEndianRoundTrip(x: bv32)
    ensures LittleEndianWord(LittleEndianBytes(x)) == x
  {
    LittleEndianOfFour(LittleEndianBytes(x));
  }

  lemma ByteUpAndDown(rest: bv32)
    requires rest & 0xFF00_0000 == 0
    ensures (rest << 8) & 0xFF == 0 && (rest << 8) >> 8 == rest
  {
  }

  lemma PeelByte(s: bv32, b: byte, rest: bv32)
    requires rest & 0xFF00_0000 == 0
    ensures BitSteps(Xor32(s, Wide(b) ^ (rest << 8)), 8) == Xor32(ByteStep(s, b), rest)
  {
    ByteUpAndDown(rest);
    XorByName(Wide(b), rest << 8);
    PeelWord(s, b, rest << 8, rest);
  }

  lemma PeelWord(s: bv32, b: byte, high: bv32, rest: bv32)
    requires high & 0xFF == 0 && high >> 8 == rest
    ensures BitSteps(Xor32(s, Xor32(Wide(b), high)), 8) == Xor32(ByteStep(s, b), rest)
  {
    hide BitSteps, Xor32, ByteStep, Wide;
    EightStepsOfHighBytes(high);
    XorAssociates(s, Wide(b), high);
    BitStepsXor(Xor32(s, Wide(b)), high, 8);
    ByteStepIsBitSteps(s, b);
  }

  lemma XorByName(x: bv32, y: bv32)
    ensures x ^ y == Xor32(x, y)
  {
  }

  /** Feeding up to four bytes is feeding the bits of one word: this is what makes bursts of 32 bits visible. */
  lemma {:induction false} RegisterOfWord(s: bv32, w: seq<byte>)
    requires |w| <= 4
    ensures Register(s, w) == BitSteps(Xor32(s, LittleEndianWord(w)), 8 * |w|)
    decreases |w|
  {
    hide BitSteps, ByteStep, Xor32, Wide;
    if |w| == 0 {
      XorUnits(s);
      assert BitSteps(s, 0) == s by { NoStepsLeft(s); }
    } else {
      var rest := LittleEndianWord(w[1..]);
      PeelByte(s, w[0], rest);
      RegisterOfWord(ByteStep(s, w[0]), w[1..]);
      BitStepsAdd(Xor32(s, LittleEndianWord(w)), 8, 8 * |w[1..]|);
    }
  }

  lemma XorTwiceRaw(x: bv32, b: bv32)
    ensures (x ^ b) ^ b == x
  {
  }
}
