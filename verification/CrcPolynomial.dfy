/**
 What the checksum means: the complement of the remainder, over GF(2), of the initialised message polynomial modulo
 the CRC-32 generator, with the bits of every byte and of the register reflected, as in section 8 of RFC 1952.
 */
module CrcPolynomial {
  import opened Words
  import opened Crc32
  import opened CrcAlgebra
  import opened Gf2Polynomials

  /** x^32 + x^26 + x^23 + x^22 + x^16 + x^12 + x^11 + x^10 + x^8 + x^7 + x^5 + x^4 + x^2 + x + 1. */
  const GENERATOR: Poly := {32, 26, 23, 22, 16, 12, 11, 10, 8, 7, 5, 4, 2, 1, 0}

  /** The `n` low bits of `w`, least significant first. */
  function LowBits(w: bv32, n: nat): (bits: seq<bool>)
    ensures |bits| == n
    decreases n
  {
    if n == 0 then [] else [!Even(w)] + LowBits(Half(w), n - 1)
  }

  /** The message as a bit string: each byte goes least significant bit first. */
  function MessageBits(bytes: seq<byte>): (bits: seq<bool>)
    ensures |bits| == 8 * |bytes|
  {
    if |bytes| == 0 then [] else LowBits(Wide(bytes[0]), 8) + MessageBits(bytes[1..])
  }

  /** Reflected: the least significant bit of the register is the coefficient of x^31. */
  function RegisterPolynomial(crc: bv32): Poly {
    OfBits(LowBits(crc, 32))
  }

  /** x^(n-1) + ... + x + 1. */
  function AllOnes(n: nat): (r: Poly)
    ensures forall e: nat :: e in r <==> e < n
  {
    if n == 0 then {} else AllOnes(n - 1) + {n - 1}
  }

  /** The message times x^32, its first 32 bits inverted. */
  function Dividend(bits: seq<bool>): Poly {
    Plus(Shift(OfBits(bits), 32), Shift(AllOnes(32), |bits|))
  }

  // ----- The register fed bit by bit

  function Bit(b: bool): bv32 {
    if b then 1 else 0
  }

  function FeedBits(crc: bv32, bits: seq<bool>): bv32
    decreases |bits|
  {
    if |bits| == 0 then crc else FeedBits(BitStep(Xor32(crc, Bit(bits[0]))), bits[1..])
  }

  lemma {:induction false} FeedConcat(crc: bv32, a: seq<bool>, b: seq<bool>)
    ensures FeedBits(crc, a + b) == FeedBits(FeedBits(crc, a), b)
    decreases |a|
  {
    hide BitStep, Xor32, Bit;
    if |a| == 0 {
      assert a + b == b;
    } else {
      assert (a + b)[1..] == a[1..] + b;
      FeedConcat(BitStep(Xor32(crc, Bit(a[0]))), a[1..], b);
    }
  }

  predicate Fits(w: bv32, n: nat)
    decreases n
  {
    if n == 0 then w == 0 else Fits(Half(w), n - 1)
  }

  lemma LowBitAndRest(w: bv32, r: bv32)
    requires r == if Even(w) then w else w ^ 1
    ensures Even(r) && Half(r) == Half(w) && w == Bit(!Even(w)) ^ r
  {
    if Even(w) {
      EvenParts(w);
    } else {
      OddParts(w);
    }
  }

  lemma EvenParts(w: bv32)
    ensures 0 ^ w == w
  {
  }

  lemma OddParts(w: bv32)
    requires w & 1 != 0
    ensures (w ^ 1) & 1 == 0 && (w ^ 1) >> 1 == w >> 1 && 1 ^ (w ^ 1) == w
  {
  }

  lemma PeelBit(s: bv32, w: bv32)
    ensures BitStep(Xor32(s, w)) == Xor32(BitStep(Xor32(s, Bit(!Even(w)))), Half(w))
  {
    hide BitStep, Xor32, Even, Half, Bit;
    var r := if Even(w) then w else w ^ 1;
    LowBitAndRest(w, r);
    XorByName(Bit(!Even(w)), r);
    XorAssociates(s, Bit(!Even(w)), r);
    BitStepXor(Xor32(s, Bit(!Even(w))), r);
    EvenStep(r);
  }

  lemma {:induction false} FeedWord(s: bv32, w: bv32, n: nat)
    requires Fits(w, n)
    ensures FeedBits(s, LowBits(w, n)) == BitSteps(Xor32(s, w), n)
    decreases n
  {
    hide BitStep, Xor32, Even, Half, Bit;
    if n == 0 {
      XorUnits(s);
    } else {
      PeelBit(s, w);
      FeedWord(BitStep(Xor32(s, Bit(!Even(w)))), Half(w), n - 1);
    }
  }

  lemma ByteFits(b: byte)
    ensures Fits(Wide(b), 8)
  {
    var w := Wide(b);
    ByteHalves(b);
    assert Fits(Half(Half(Half(Half(w)))), 4);
  }

  lemma ByteHalves(b: byte)
    ensures Half(Half(Half(Half(Half(Half(Half(Half(Wide(b))))))))) == 0
  {
  }

  lemma {:induction false} FeedMessage(s: bv32, bytes: seq<byte>)
    ensures FeedBits(s, MessageBits(bytes)) == Register(s, bytes)
    decreases |bytes|
  {
    hide BitSteps, ByteStep, Xor32, LowBits, Wide, Fits;
    if |bytes| > 0 {
      var b := bytes[0];
      ByteFits(b);
      FeedWord(s, Wide(b), 8);
      ByteStepIsBitSteps(s, b);
      FeedConcat(s, LowBits(Wide(b), 8), MessageBits(bytes[1..]));
      FeedMessage(ByteStep(s, b), bytes[1..]);
    }
  }

  // ----- One step is a multiplication by x modulo the generator

  lemma {:induction false} LowBitsXor(x: bv32, y: bv32, n: nat)
    ensures forall i :: 0 <= i < n ==> LowBits(Xor32(x, y), n)[i] == (LowBits(x, n)[i] != LowBits(y, n)[i])
    decreases n
  {
    hide Xor32, Even, Half;
    if n > 0 {
      XorBits(x, y);
      LowBitsXor(Half(x), Half(y), n - 1);
    }
  }

  lemma XorBits(x: bv32, y: bv32)
    ensures Half(Xor32(x, y)) == Xor32(Half(x), Half(y))
    ensures !Even(Xor32(x, y)) == (!Even(x) != !Even(y))
  {
    assert x & 1 == 0 || x & 1 == 1;
    assert y & 1 == 0 || y & 1 == 1;
  }

  lemma {:induction false} LowBitsOfFitting(w: bv32, n: nat)
    requires Fits(w, n)
    ensures LowBits(w, n + 1) == LowBits(w, n) + [false]
    decreases n
  {
    hide Half;
    if n == 0 {
      assert Even(w);
    } else {
      hide Even;
      LowBitsOfFitting(Half(w), n - 1);
    }
  }

  lemma {:induction false} FitsSplit(w: bv32, v: bv32, m: nat, n: nat)
    requires Fits(v, n) && v == Halves(w, m)
    ensures Fits(w, m + n)
    decreases m
  {
    hide Half;
    if m > 0 {
      FitsSplit(Half(w), v, m - 1, n);
    }
  }

  function Halves(w: bv32, m: nat): bv32
    decreases m
  {
    if m == 0 then w else Halves(Half(w), m - 1)
  }

  /** All but the lowest byte. */
  function HighBytes(w: bv32): bv32 {
    w >> 8
  }

  lemma EightHalves(w: bv32)
    ensures Halves(w, 8) == HighBytes(w)
  {
    hide HighBytes, Half;
    var v := Half(Half(Half(Half(w))));
    assert Halves(v, 4) == Half(Half(Half(Half(v))));
    assert Halves(w, 8) == Halves(v, 4);
    EightHalvesShift(w);
  }

  lemma EightHalvesShift(w: bv32)
    ensures Half(Half(Half(Half(Half(Half(Half(Half(w)))))))) == HighBytes(w)
  {
  }

  lemma WordFits(w: bv32)
    ensures Fits(w, 32)
  {
    hide Half, Fits, Halves, HighBytes, Wide;
    var w1 := HighBytes(w);
    var w2 := HighBytes(w1);
    var w3 := HighBytes(w2);
    EightHalves(w);
    EightHalves(w1);
    EightHalves(w2);
    var b := HighestByte(w);
    ByteFits(b);
    FitsSplit(w2, w3, 8, 8);
    FitsSplit(w1, w2, 8, 16);
    FitsSplit(w, w1, 8, 24);
  }

  lemma HighestByte(w: bv32) returns (b: byte)
    ensures Wide(b) == HighBytes(HighBytes(HighBytes(w)))
  {
    b := ((w >> 24) & 0xFF) as byte;
  }

  // ----- The register polynomial

  lemma PolynomialOfXor(x: bv32, y: bv32)
    ensures RegisterPolynomial(Xor32(x, y)) == Plus(RegisterPolynomial(x), RegisterPolynomial(y))
  {
    hide Xor32, LowBits;
    LowBitsXor(x, y, 32);
  }

  /** Halving an even register multiplies by x. */
  lemma PolynomialOfHalf(x: bv32)
    requires Even(x)
    ensures RegisterPolynomial(Half(x)) == Shift(RegisterPolynomial(x), 1)
  {
    hide Half, Even;
    WordFits(x);
    LowBitsOfFitting(x, 32);
    ShiftedBits(x);
    var low, high := LowBits(x, 32), LowBits(Half(x), 32);
    hide LowBits;
    assert forall e: nat :: e in OfBits(high) <==> e >= 1 && e - 1 in OfBits(low);
  }

  lemma ShiftedBits(x: bv32)
    requires Fits(x, 32) && Even(x)
    ensures LowBits(Half(x), 32) == LowBits(x, 32)[1..] + [false]
    ensures LowBits(x, 32)[0] == false
  {
    hide Half, Even;
    LowBitsOfFitting(x, 32);
    assert LowBits(x, 33)[1..] == LowBits(Half(x), 32);
  }

  lemma {:induction false} LowBitsSplit(w: bv32, m: nat, n: nat)
    ensures LowBits(w, m + n) == LowBits(w, m) + LowBits(Halves(w, m), n)
    decreases m
  {
    hide Half, Even;
    if m > 0 {
      LowBitsSplit(Half(w), m - 1, n);
    }
  }

  /** The 32 bits of a word, a byte at a time. */
  lemma LowBitsByBytes(w: bv32)
    ensures LowBits(w, 32)
         == LowBits(w, 8) + (LowBits(w >> 8, 8) + (LowBits((w >> 8) >> 8, 8) + LowBits(((w >> 8) >> 8) >> 8, 8)))
  {
    hide Half, Even, LowBits, Halves;
    EightHalves(w);
    EightHalves(w >> 8);
    EightHalves((w >> 8) >> 8);
    LowBitsSplit(w, 8, 24);
    LowBitsSplit(w >> 8, 8, 16);
    LowBitsSplit((w >> 8) >> 8, 8, 8);
  }

  lemma FourLowBits(w: bv32)
    ensures LowBits(w, 4) == [!Even(w), !Even(Half(w)), !Even(Half(Half(w))), !Even(Half(Half(Half(w))))]
    ensures Halves(w, 4) == Half(Half(Half(Half(w))))
  {
    hide Even, Half;
    assert LowBits(w, 2) == [!Even(w), !Even(Half(w))];
    assert LowBits(Half(Half(w)), 2) == [!Even(Half(Half(w))), !Even(Half(Half(Half(w))))];
  }

  lemma EightLowBits(w: bv32)
    ensures LowBits(w, 8)
         == [w & 1 != 0, w & 2 != 0, w & 4 != 0, w & 8 != 0] + [w & 16 != 0, w & 32 != 0, w & 64 != 0, w & 128 != 0]
  {
    hide LowBits, Halves, Even, Half;
    LowBitsSplit(w, 4, 4);
    FourLowBits(w);
    FourLowBits(Halves(w, 4));
    MaskedBits(w);
  }

  lemma MaskedBits(w: bv32)
    ensures Even(w) == (w & 1 == 0) && Even(Half(w)) == (w & 2 == 0)
    ensures Even(Half(Half(w))) == (w & 4 == 0) && Even(Half(Half(Half(w)))) == (w & 8 == 0)
    ensures var v := Half(Half(Half(Half(w))));
            && Even(v) == (w & 16 == 0) && Even(Half(v)) == (w & 32 == 0)
            && Even(Half(Half(v))) == (w & 64 == 0) && Even(Half(Half(Half(v)))) == (w & 128 == 0)
  {
  }

  lemma BytesOfPolynomial()
    ensures LowBits(POLYNOMIAL, 8) == [false, false, false, false] + [false, true, false, false]
    ensures LowBits(0xED_B883, 8) == [true, true, false, false] + [false, false, false, true]
    ensures LowBits(0xEDB8, 8) == [false, false, false, true] + [true, true, false, true]
    ensures LowBits(0xED, 8) == [true, false, true, true] + [false, true, true, true]
  {
    hide LowBits;
    EightLowBits(POLYNOMIAL);
    EightLowBits(0xED_B883);
    EightLowBits(0xEDB8);
    EightLowBits(0xED);
  }

  lemma OfBitsConcat(a: seq<bool>, b: seq<bool>)
    ensures OfBits(a + b) == Plus(Shift(OfBits(a), |b|), OfBits(b))
  {
    var l, r := OfBits(a + b), Plus(Shift(OfBits(a), |b|), OfBits(b));
    hide OfBits, Plus, Shift;
    forall e: nat
      ensures e in l <==> e in r
    {
      if e < |b| {
        LowCoefficient(a, b, e);
      } else {
        HighCoefficient(a, b, e - |b|);
      }
    }
  }

  lemma LowCoefficient(a: seq<bool>, b: seq<bool>, e: nat)
    requires e < |b|
    ensures e in OfBits(a + b) <==> e in OfBits(b)
  {
    hide OfBits;
    assert (a + b)[|a + b| - 1 - e] == b[|b| - 1 - e];
  }

  lemma HighCoefficient(a: seq<bool>, b: seq<bool>, low: nat)
    ensures low + |b| in OfBits(a + b) <==> low in OfBits(a)
  {
    hide OfBits;
    if low < |a| {
      assert (a + b)[|a + b| - 1 - (low + |b|)] == a[|a| - 1 - low];
    }
  }

  lemma OfFourBits(bits: seq<bool>)
    requires |bits| == 4
    ensures OfBits(bits) == (if bits[0] then {3} else {}) + (if bits[1] then {2} else {}) +
                            (if bits[2] then {1} else {}) + (if bits[3] then {0} else {})
  {
    assert forall e: nat :: e in OfBits(bits) ==> e == 0 || e == 1 || e == 2 || e == 3;
    assert (0 in OfBits(bits) <==> bits[3]) && (1 in OfBits(bits) <==> bits[2]);
    assert (2 in OfBits(bits) <==> bits[1]) && (3 in OfBits(bits) <==> bits[0]);
  }

  lemma OfTwoNibbles(a: seq<bool>, b: seq<bool>, p: Poly, q: Poly)
    requires |a| == |b| == 4 && OfBits(a) == p && OfBits(b) == q
    ensures OfBits(a + b) == Plus(Shift(p, 4), q)
  {
    OfBitsConcat(a, b);
  }

  lemma OfByteConstants()
    ensures OfBits([false, false, false, false] + [false, true, false, false]) == {2}
    ensures OfBits([true, true, false, false] + [false, false, false, true]) == {7, 6, 0}
    ensures OfBits([false, false, false, true] + [true, true, false, true]) == {4, 3, 2, 0}
    ensures OfBits([true, false, true, true] + [false, true, true, true]) == {7, 5, 4, 2, 1, 0}
  {
    hide OfBits;
    OfFourBits([false, false, false, false]);
    OfFourBits([false, true, false, false]);
    OfFourBits([true, true, false, false]);
    OfFourBits([false, false, false, true]);
    OfFourBits([true, true, false, true]);
    OfFourBits([true, false, true, true]);
    OfFourBits([false, true, true, true]);
    OfTwoNibbles([false, false, false, false], [false, true, false, false], {}, {2});
    OfTwoNibbles([true, true, false, false], [false, false, false, true], {3, 2}, {0});
    OfTwoNibbles([false, false, false, true], [true, true, false, true], {0}, {3, 2, 0});
    OfTwoNibbles([true, false, true, true], [false, true, true, true], {3, 1, 0}, {2, 1, 0});
    ShiftedNibbles();
  }

  lemma ShiftedNibbles()
    ensures Plus(Shift({}, 4), {2}) == {2}
    ensures Plus(Shift({3, 2}, 4), {0}) == {7, 6, 0}
    ensures Plus(Shift({0}, 4), {3, 2, 0}) == {4, 3, 2, 0}
    ensures Plus(Shift({3, 1, 0}, 4), {2, 1, 0}) == {7, 5, 4, 2, 1, 0}
  {
  }

  lemma PolynomialByBytes(w: bv32)
    ensures RegisterPolynomial(w)
         == Plus(Shift(OfBits(LowBits(w, 8)), 24), Plus(Shift(OfBits(LowBits(w >> 8, 8)), 16),
              Plus(Shift(OfBits(LowBits((w >> 8) >> 8, 8)), 8), OfBits(LowBits(((w >> 8) >> 8) >> 8, 8)))))
  {
    hide LowBits, OfBits;
    var a, b := LowBits(w, 8), LowBits(w >> 8, 8);
    var c, d := LowBits((w >> 8) >> 8, 8), LowBits(((w >> 8) >> 8) >> 8, 8);
    LowBitsByBytes(w);
    OfBitsConcat(a, b + (c + d));
    OfBitsConcat(b, c + d);
    OfBitsConcat(c, d);
  }

  lemma ShiftedBytesOfPolynomial()
    ensures Shift({2}, 24) == {26}
    ensures Shift({7, 6, 0}, 16) == {23, 22, 16}
    ensures Shift({4, 3, 2, 0}, 8) == {12, 11, 10, 8}
    ensures Plus({26}, Plus({23, 22, 16}, Plus({12, 11, 10, 8}, {7, 5, 4, 2, 1, 0})))
         == {26, 23, 22, 16, 12, 11, 10, 8, 7, 5, 4, 2, 1, 0}
  {
  }

  /** The tap mask is the reflected generator without its leading term. */
  lemma PolynomialIsGenerator()
    ensures Plus(RegisterPolynomial(POLYNOMIAL), {32}) == GENERATOR
  {
    hide LowBits, OfBits, RegisterPolynomial, Shift;
    PolynomialByBytes(POLYNOMIAL);
    BytesOfPolynomial();
    OfByteConstants();
    ShiftedBytesOfPolynomial();
  }

  lemma {:induction false} BitsOfZero(n: nat)
    ensures OfBits(LowBits(0, n)) == {}
  {
    if n > 0 {
      assert Even(0) && Half(0) == 0;
      BitsOfZero(n - 1);
    }
  }

  lemma PolynomialOfOne()
    ensures RegisterPolynomial(1) == {31}
    ensures RegisterPolynomial(0) == {}
  {
    BitsOfZero(32);
    BitsOfZero(31);
    assert !Even(1) && Half(1) == 0;
    assert LowBits(1, 32)[1..] == LowBits(0, 31);
  }

  lemma AllTrue(w: bv32)
    requires w & 0xFF == 0xFF
    ensures LowBits(w, 8) == [true, true, true, true] + [true, true, true, true]
  {
    hide LowBits;
    EightLowBits(w);
    LowByteBits(w);
  }

  lemma LowByteBits(w: bv32)
    requires w & 0xFF == 0xFF
    ensures w & 1 != 0 && w & 2 != 0 && w & 4 != 0 && w & 8 != 0
    ensures w & 16 != 0 && w & 32 != 0 && w & 64 != 0 && w & 128 != 0
  {
  }

  lemma PolynomialOfInitialValue()
    ensures RegisterPolynomial(INITIAL_VALUE) == AllOnes(32)
  {
    hide LowBits;
    LowBitsByBytes(INITIAL_VALUE);
    AllTrue(INITIAL_VALUE);
    AllTrue(0xFF_FFFF);
    AllTrue(0xFFFF);
    AllTrue(0xFF);
    var bits := LowBits(INITIAL_VALUE, 32);
    assert forall i :: 0 <= i < 32 ==> bits[i];
    forall e: nat
      ensures e in OfBits(bits) <==> e < 32
    {
    }
  }

  /** One step multiplies the register polynomial by x, modulo the generator. */
  lemma PolynomialOfStep(c: bv32)
    ensures RegisterPolynomial(BitStep(c))
         == Plus(Shift(RegisterPolynomial(c), 1), if Even(c) then {} else GENERATOR)
  {
    hide BitStep, Even, Half, Xor32, RegisterPolynomial;
    if Even(c) {
      EvenStep(c);
      PolynomialOfHalf(c);
    } else {
      OddStep(c);
    }
  }

  lemma OddStep(c: bv32)
    requires !Even(c)
    ensures RegisterPolynomial(BitStep(c)) == Plus(Shift(RegisterPolynomial(c), 1), GENERATOR)
  {
    hide BitStep, Even, Half, Xor32, RegisterPolynomial;
    var r := EvenPart(c);
    BitStepXor(1, r);
    StepOfOne();
    EvenStep(r);
    PolynomialOfXor(POLYNOMIAL, Half(r));
    PolynomialOfHalf(r);
    PolynomialOfXor(1, r);
    PolynomialOfOne();
    PolynomialIsGenerator();
    OddStepAlgebra(RegisterPolynomial(POLYNOMIAL), RegisterPolynomial(r));
  }

  lemma OddStepAlgebra(p: Poly, r: Poly)
    requires Plus(p, {32}) == GENERATOR
    ensures Plus(p, Shift(r, 1)) == Plus(Shift(Plus({31}, r), 1), GENERATOR)
  {
    var g := GENERATOR;
    assert Plus(p, {32}) == g;
    hide GENERATOR;
    assert forall e: nat :: e in Plus(p, Shift(r, 1)) <==> e in Plus(Shift(Plus({31}, r), 1), g);
  }

  lemma EvenPart(c: bv32) returns (r: bv32)
    requires !Even(c)
    ensures Even(r) && c == Xor32(1, r)
  {
    r := c ^ 1;
    OddParts(c);
  }

  lemma StepOfOne()
    ensures BitStep(1) == POLYNOMIAL
  {
  }

  // ----- The register is the remainder

  lemma {:induction false} OfBitsSnoc(bits: seq<bool>, b: bool)
    ensures OfBits(bits + [b]) == Plus(Shift(OfBits(bits), 1), if b then {0} else {})
  {
  }

  lemma DividendSnoc(bits: seq<bool>, b: bool)
    ensures Dividend(bits + [b]) == Plus(Shift(Dividend(bits), 1), if b then {32} else {})
  {
    hide OfBits, AllOnes;
    OfBitsSnoc(bits, b);
    var m, i := OfBits(bits), AllOnes(32);
    var last: Poly := if b then {0} else {};
    ShiftPlus(Shift(m, 32), Shift(i, |bits|), 1);
    ShiftPlus(Shift(m, 1), last, 32);
    assert Shift(Shift(m, 32), 1) == Shift(Shift(m, 1), 32);
    assert Shift(Shift(i, |bits|), 1) == Shift(i, |bits| + 1);
    assert Shift(last, 32) == if b then {32} else {};
    hide Shift;
    PlusSwap(Shift(Shift(m, 32), 1), Shift(last, 32), Shift(i, |bits| + 1));
  }

  lemma PlusSwap(a: Poly, b: Poly, c: Poly)
    ensures Plus(Plus(a, b), c) == Plus(Plus(a, c), b)
  {
  }

  lemma PolynomialOfFeed(crc: bv32, b: bool)
    ensures RegisterPolynomial(BitStep(Xor32(crc, Bit(b))))
         == Plus(Plus(Shift(RegisterPolynomial(crc), 1), if b then {32} else {}),
                 if Even(Xor32(crc, Bit(b))) then {} else GENERATOR)
  {
    hide BitStep, Even, Xor32, RegisterPolynomial, GENERATOR, Shift, Plus;
    var c := Xor32(crc, Bit(b));
    PolynomialOfStep(c);
    PolynomialOfXor(crc, Bit(b));
    PolynomialOfOne();
    ShiftPlus(RegisterPolynomial(crc), RegisterPolynomial(Bit(b)), 1);
    ShiftedBit();
  }

  lemma ShiftedBit()
    ensures Shift({31}, 1) == {32} && Shift({}, 1) == {}
  {
  }

  /** Long division, a bit at a time: the quotient is collected, the register is what is left. */
  lemma {:induction false} FeedDivides(bits: seq<bool>) returns (q: seq<bool>)
    ensures Dividend(bits) == Plus(Times(q, GENERATOR), RegisterPolynomial(FeedBits(INITIAL_VALUE, bits)))
    decreases |bits|
  {
    hide BitStep, Even, Xor32, RegisterPolynomial;
    if |bits| == 0 {
      q := [];
      PolynomialOfInitialValue();
    } else {
      var init, b := bits[..|bits| - 1], bits[|bits| - 1];
      assert bits == init + [b];
      var p := FeedDivides(init);
      var crc := FeedBits(INITIAL_VALUE, init);
      FeedConcat(INITIAL_VALUE, init, [b]);
      var c := Xor32(crc, Bit(b));
      assert FeedBits(crc, [b]) == BitStep(c);
      q := [!Even(c)] + p;
      DividendSnoc(init, b);
      PolynomialOfFeed(crc, b);
      DivisionStep(p, Dividend(init), RegisterPolynomial(crc), if b then {32} else {}, !Even(c));
    }
  }

  lemma DivisionStep(p: seq<bool>, d: Poly, r: Poly, low: Poly, tap: bool)
    requires d == Plus(Times(p, GENERATOR), r)
    ensures Plus(Shift(d, 1), low)
         == Plus(Times([tap] + p, GENERATOR), Plus(Plus(Shift(r, 1), low), if tap then GENERATOR else {}))
  {
    hide Shift, GENERATOR;
    var t := if tap then GENERATOR else {};
    ShiftPlus(Times(p, GENERATOR), r, 1);
    assert ([tap] + p)[1..] == p;
    PlusCancelsTwice(t, Shift(Times(p, GENERATOR), 1), Shift(r, 1), low);
  }

  lemma PlusCancelsTwice(t: Poly, x: Poly, y: Poly, z: Poly)
    ensures Plus(Plus(x, y), z) == Plus(Plus(t, x), Plus(Plus(y, z), t))
  {
  }

  lemma RegisterDegree(crc: bv32)
    ensures DegreeBelow(RegisterPolynomial(crc), 32)
  {
    hide LowBits;
  }

  /** The checksum, complemented back and reflected, is the one remainder of the initialised message. */
  lemma CrcIsRemainder(bytes: seq<byte>, r: Poly)
    ensures IsRemainder(r, Dividend(MessageBits(bytes)), GENERATOR, 32)
       <==> r == RegisterPolynomial(Crc(bytes) ^ 0xFFFF_FFFF)
  {
    hide Register, RegisterPolynomial, MessageBits, Dividend, Crc;
    FeedMessage(INITIAL_VALUE, bytes);
    CrcComplement(bytes);
    RemainderOfBits(MessageBits(bytes), r);
  }

  lemma RemainderOfBits(bits: seq<bool>, r: Poly)
    ensures IsRemainder(r, Dividend(bits), GENERATOR, 32)
       <==> r == RegisterPolynomial(FeedBits(INITIAL_VALUE, bits))
  {
    hide RegisterPolynomial, Dividend, FeedBits, Times, GENERATOR;
    GeneratorDegree();
    var crc := FeedBits(INITIAL_VALUE, bits);
    var q := FeedDivides(bits);
    RegisterDegree(crc);
    assert IsRemainder(RegisterPolynomial(crc), Dividend(bits), GENERATOR, 32);
    if IsRemainder(r, Dividend(bits), GENERATOR, 32) {
      RemainderUnique(r, RegisterPolynomial(crc), Dividend(bits), GENERATOR, 32);
    }
  }

  lemma GeneratorDegree()
    ensures HasDegree(GENERATOR, 32)
  {
  }

  lemma CrcComplement(bytes: seq<byte>)
    ensures Crc(bytes) ^ FINAL_XOR == Register(INITIAL_VALUE, bytes)
  {
    hide Register;
    XorTwiceRaw(Register(INITIAL_VALUE, bytes), FINAL_XOR);
  }
}
