/**
 Errors of three bits. If three powers of the bit step cancelled, then after division by the lowest one two others would
 agree in all but their top bit.
 */
module ThreeBitErrors {
  import opened Words
  import opened Crc32
  import opened CrcAlgebra
  import opened Protocol
  import opened ErrorDetection
  import opened BitErrors
  import opened PowerTable

  lemma FoundAfter(x: bv32, n: nat, j: nat)
    requires EightFound(x, n) && j < 8
    ensures ExponentOf(Low31(BitSteps(x, j))) == n + j
  {
    hide BitStep, ExponentOf, Low31;
    match j
    case 0 => case 1 => case 2 => case 3 => case 4 => case 5 => case 6 => case _ => assert j == 7;
  }

  lemma {:induction false} FoundOnTrail(k: seq<bv32>, n: nat, e: nat)
    requires |k| > 1 && Trail(k) && TrailFound(k, n) && Hop(TOP, n, k[0]) && n <= e < n + 8 * (|k| - 1)
    ensures ExponentOf(Low31(BitSteps(TOP, e))) == e
    decreases |k|
  {
    hide BitSteps, ExponentOf, Low31, EightFound, EightSteps, StaysAway;
    if e < n + 8 {
      FoundAfter(k[0], n, e - n);
      BitStepsAdd(TOP, n, e - n);
    } else {
      EightStepsAreAHop(k[0], k[1]);
      HopsJoin(TOP, n, k[0], 8, k[1]);
      var rest := k[1..];
      forall i | 0 <= i < |rest| - 1
        ensures EightSteps(rest[i], rest[i + 1]) && EightFound(rest[i], n + 8 + 8 * i)
      {
        assert EightSteps(k[i + 1], k[i + 1 + 1]) && EightFound(k[i + 1], n + 8 * (i + 1));
      }
      FoundOnTrail(rest, n + 8, e);
    }
  }

  /** The table inverts the powers below 272, so no two of them agree in their low 31 bits. */
  lemma ExponentFound(e: nat)
    requires e < FRAME_BITS
    ensures ExponentOf(Low31(BitSteps(TOP, e))) == e
  {
    hide BitSteps, ExponentOf, Low31, Trail, TrailFound, Hop;
    AllTrails();
    if e < 32 {
      FoundA();
      FoundOnTrail(ORBIT_A, 0, e);
    } else if e < 64 {
      FoundB();
      FoundOnTrail(ORBIT_B, 32, e);
    } else if e < 96 {
      FoundC();
      FoundOnTrail(ORBIT_C, 64, e);
    } else if e < 128 {
      FoundD();
      FoundOnTrail(ORBIT_D, 96, e);
    } else if e < 160 {
      FoundE();
      FoundOnTrail(ORBIT_E, 128, e);
    } else if e < 192 {
      FoundF();
      FoundOnTrail(ORBIT_F, 160, e);
    } else if e < 224 {
      FoundG();
      FoundOnTrail(ORBIT_G, 192, e);
    } else if e < 256 {
      FoundH();
      FoundOnTrail(ORBIT_H, 224, e);
    } else {
      FoundI();
      FoundOnTrail(ORBIT_I, 256, e);
    }
  }

  // ----- Three powers

  lemma SameLowBits(x: bv32, y: bv32)
    requires Xor32(x, y) == TOP
    ensures Low31(x) == Low31(y)
  {
  }

  lemma NoTwoMakeTop(a: nat, b: nat)
    requires a < b < FRAME_BITS
    ensures Xor32(BitSteps(TOP, a), BitSteps(TOP, b)) != TOP
  {
    hide BitSteps, ExponentOf, Low31, Xor32;
    if Xor32(BitSteps(TOP, a), BitSteps(TOP, b)) == TOP {
      SameLowBits(BitSteps(TOP, a), BitSteps(TOP, b));
      ExponentFound(a);
      ExponentFound(b);
    }
  }

  lemma DividedByLowest(a: nat, b: nat, c: nat)
    requires a < b < c
    ensures Xor32(BitSteps(TOP, b), BitSteps(TOP, c)) == BitSteps(Xor32(BitSteps(TOP, b - a), BitSteps(TOP, c - a)), a)
  {
    hide BitSteps, Xor32, TOP;
    BitStepsAdd(TOP, b - a, a);
    BitStepsAdd(TOP, c - a, a);
    BitStepsXor(BitSteps(TOP, b - a), BitSteps(TOP, c - a), a);
  }

  /** No three powers below 272 cancel: divided by the lowest, they would be the top bit and two that make it. */
  lemma NoThreeCancel(a: nat, b: nat, c: nat)
    requires a < b < c < FRAME_BITS
    ensures Xor32(BitSteps(TOP, a), Xor32(BitSteps(TOP, b), BitSteps(TOP, c))) != 0
  {
    hide BitSteps, Xor32, TOP;
    var two := Xor32(BitSteps(TOP, b - a), BitSteps(TOP, c - a));
    DividedByLowest(a, b, c);
    XorZeroMeansEqual(BitSteps(TOP, a), BitSteps(two, a));
    if BitSteps(TOP, a) == BitSteps(two, a) {
      BitStepsInjective(TOP, two, a);
      NoTwoMakeTop(b - a, c - a);
    }
  }

  lemma AnyOrder(x: bv32, y: bv32, z: bv32)
    ensures Xor32(x, Xor32(y, z)) == Xor32(x, Xor32(z, y)) == Xor32(y, Xor32(x, z))
  {
    hide Xor32;
    XorCommutes(y, z);
    XorAssociates(x, y, z);
    XorCommutes(x, y);
    XorAssociates(y, x, z);
  }

  lemma NoThreeCancelInAnyOrder(a: nat, b: nat, c: nat)
    requires a < FRAME_BITS && b < FRAME_BITS && c < FRAME_BITS && a != b && a != c && b != c
    ensures Xor32(BitSteps(TOP, a), Xor32(BitSteps(TOP, b), BitSteps(TOP, c))) != 0
  {
    hide BitSteps, Xor32, TOP;
    var x, y, z := BitSteps(TOP, a), BitSteps(TOP, b), BitSteps(TOP, c);
    AnyOrder(x, y, z);
    AnyOrder(x, z, y);
    AnyOrder(y, x, z);
    AnyOrder(z, x, y);
    if a < b {
      if b < c { NoThreeCancel(a, b, c); } else if a < c { NoThreeCancel(a, c, b); } else { NoThreeCancel(c, a, b); }
    } else {
      if a < c { NoThreeCancel(b, a, c); } else if b < c { NoThreeCancel(b, c, a); } else { NoThreeCancel(c, b, a); }
    }
  }

  lemma ThreeBitSyndrome(d: seq<byte>, e: seq<byte>, f: seq<byte>)
    requires |d| == |e| == |f| == FRAME_SIZE
    ensures Syndrome(XorBytes(d, XorBytes(e, f))) == Xor32(Syndrome(d), Xor32(Syndrome(e), Syndrome(f)))
  {
    hide Syndrome, Xor32, Xor8;
    SyndromeXor(e, f);
    SyndromeXor(d, XorBytes(e, f));
  }

  /** Three flipped bits anywhere in any serialised frame are noticed. */
  lemma ThreeBitsDetected(frame: TelemetryFrame, p: nat, q: nat, r: nat)
    requires p < FRAME_BITS && q < FRAME_BITS && r < FRAME_BITS && p != q && p != r && q != r
    ensures Deserialize(Corrupted(frame, XorBytes(BitError(p), XorBytes(BitError(q), BitError(r))))).frame.None?
  {
    hide BitSteps, Syndrome, Deserialize, Corrupted, BitError, Exponent, Xor32, Xor8;
    var d, e, f := BitError(p), BitError(q), BitError(r);
    SyndromeOfBit(p);
    SyndromeOfBit(q);
    SyndromeOfBit(r);
    ThreeBitSyndrome(d, e, f);
    DistinctExponents(p, q);
    DistinctExponents(p, r);
    DistinctExponents(q, r);
    NoThreeCancelInAnyOrder(Exponent(p), Exponent(q), Exponent(r));
    NonzeroSyndromeRejected(frame, XorBytes(d, XorBytes(e, f)));
  }

  lemma DistinctExponents(p: nat, q: nat)
    requires p < FRAME_BITS && q < FRAME_BITS && p != q
    ensures Exponent(p) != Exponent(q)
  {
    hide Exponent;
    if Exponent(p) == Exponent(q) {
      ExponentInjective(p, q);
    }
  }
}
