/** Any four consecutive bytes of a message are in bijection with the checksum, whatever surrounds them. */
module CrcWindows {
  import opened Words
  import opened Crc32
  import opened CrcAlgebra

  lemma LittleEndianBytesOfWord(w: seq<byte>)
    requires |w| == 4
    ensures LittleEndianBytes(LittleEndianWord(w)) == w
  {
    hide LittleEndianWord, Little32;
    LittleEndianOfFour(w);
    FourBytesOfWord(w[0], w[1], w[2], w[3]);
  }

  lemma FourBytesOfWord(a: byte, b: byte, c: byte, d: byte)
    ensures LittleEndianBytes(Little32(a, b, c, d)) == [a, b, c, d]
  {
  }

  lemma LittleEndianInjective(v: seq<byte>, w: seq<byte>)
    requires |v| == |w| == 4 && LittleEndianWord(v) == LittleEndianWord(w)
    ensures v == w
  {
    LittleEndianBytesOfWord(v);
    LittleEndianBytesOfWord(w);
  }

  lemma RegisterOfThreeParts(s: bv32, a: seq<byte>, w: seq<byte>, c: seq<byte>)
    ensures Register(s, a + w + c) == Register(Register(Register(s, a), w), c)
  {
    RegisterConcat(s, a + w, c);
    RegisterConcat(s, a, w);
  }

  lemma XorLeftCancel(s: bv32, x: bv32, y: bv32)
    requires Xor32(s, x) == Xor32(s, y)
    ensures x == y
  {
    hide Xor32;
    XorCommutes(s, x);
    XorCommutes(s, y);
    XorCancel(x, y, s);
  }

  lemma RegisterInjectiveInWord(s: bv32, v: seq<byte>, w: seq<byte>)
    requires |v| == |w| == 4 && Register(s, v) == Register(s, w)
    ensures v == w
  {
    hide Register, BitSteps, Xor32, LittleEndianWord;
    var x, y := LittleEndianWord(v), LittleEndianWord(w);
    RegisterOfWord(s, v);
    RegisterOfWord(s, w);
    BitStepsInjective(Xor32(s, x), Xor32(s, y), 32);
    XorLeftCancel(s, x, y);
    LittleEndianInjective(v, w);
  }

  /** Two messages that differ only inside a window of four bytes have different checksums. */
  lemma WindowInjective(a: seq<byte>, v: seq<byte>, w: seq<byte>, c: seq<byte>)
    requires |v| == |w| == 4
    ensures Crc(a + v + c) == Crc(a + w + c) <==> v == w
  {
    hide Register, Crc;
    if Crc(a + v + c) == Crc(a + w + c) {
      var s := Register(INITIAL_VALUE, a);
      SameCrcSameRegister(a + v + c, a + w + c);
      RegisterOfThreeParts(INITIAL_VALUE, a, v, c);
      RegisterOfThreeParts(INITIAL_VALUE, a, w, c);
      RegisterInjectiveInStart(Register(s, v), Register(s, w), c);
      RegisterInjectiveInWord(s, v, w);
    }
  }

  lemma SameCrcSameRegister(a: seq<byte>, b: seq<byte>)
    requires Crc(a) == Crc(b)
    ensures Register(INITIAL_VALUE, a) == Register(INITIAL_VALUE, b)
  {
    hide Register;
    XorTwiceRaw(Register(INITIAL_VALUE, a), FINAL_XOR);
    XorTwiceRaw(Register(INITIAL_VALUE, b), FINAL_XOR);
  }

  /** The start value from which `bytes` leads to `y`. */
  function RegisterInverse(y: bv32, bytes: seq<byte>): bv32
    decreases |bytes|
  {
    if |bytes| == 0 then y
    else Xor32(BitStepsInverse(RegisterInverse(y, bytes[1..]), 8), Wide(bytes[0]))
  }

  lemma XorTwice(x: bv32, b: bv32)
    ensures Xor32(Xor32(x, b), b) == x
    ensures Xor32(b, Xor32(b, x)) == x
  {
  }

  lemma {:induction false} RegisterAfterInverse(y: bv32, bytes: seq<byte>)
    ensures Register(RegisterInverse(y, bytes), bytes) == y
    decreases |bytes|
  {
    hide BitSteps, BitStepsInverse, ByteStep, Xor32, Wide;
    if |bytes| > 0 {
      var z := RegisterInverse(y, bytes[1..]);
      var b := bytes[0];
      ByteStepIsBitSteps(RegisterInverse(y, bytes), b);
      XorTwice(BitStepsInverse(z, 8), Wide(b));
      BitStepsBijective(z, 8);
      RegisterAfterInverse(y, bytes[1..]);
    }
  }

  /** The one window between `a` and `c` that gives the message the checksum `target`. */
  function WindowFor(a: seq<byte>, c: seq<byte>, target: bv32): (w: seq<byte>)
    ensures |w| == 4
  {
    var y := RegisterInverse(target ^ FINAL_XOR, c);
    LittleEndianBytes(Xor32(Register(INITIAL_VALUE, a), BitStepsInverse(y, 32)))
  }

  lemma WindowSurjective(a: seq<byte>, c: seq<byte>, target: bv32)
    ensures Crc(a + WindowFor(a, c, target) + c) == target
  {
    hide Register, RegisterInverse, BitSteps, BitStepsInverse, Xor32, LittleEndianBytes;
    var s := Register(INITIAL_VALUE, a);
    var y := RegisterInverse(target ^ FINAL_XOR, c);
    var u := BitStepsInverse(y, 32);
    var w := WindowFor(a, c, target);
    LittleEndianRoundTrip(Xor32(s, u));
    RegisterOfWord(s, w);
    XorTwice(u, s);
    BitStepsBijective(y, 32);
    RegisterAfterInverse(target ^ FINAL_XOR, c);
    RegisterOfThreeParts(INITIAL_VALUE, a, w, c);
    XorTwiceRaw(target, FINAL_XOR);
  }
}
