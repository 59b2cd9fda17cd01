/** Words and byte strings as the numbers they stand for. */
module Numbers {
  import opened Words
  import opened Protocol
  import opened ProtocolCodec
  import Crc32

  /** The number with base-256 digits `s`, most significant first. */
  function BigEndian(s: seq<byte>): nat {
    if |s| == 0 then 0 else 256 * BigEndian(s[..|s| - 1]) + s[|s| - 1] as int
  }

  function Power256(n: nat): nat {
    if n == 0 then 1 else 256 * Power256(n - 1)
  }

  lemma {:induction false} BigEndianBound(s: seq<byte>)
    ensures BigEndian(s) < Power256(|s|)
    decreases |s|
  {
    if |s| > 0 {
      BigEndianBound(s[..|s| - 1]);
    }
  }

  lemma Powers()
    ensures Power256(0) == 1 && Power256(1) == 0x100 && Power256(2) == 0x1_0000 && Power256(3) == 0x100_0000
    ensures Power256(4) == 0x1_0000_0000 && Power256(5) == 0x100_0000_0000 && Power256(6) == 0x1_0000_0000_0000
    ensures Power256(7) == 0x100_0000_0000_0000 && Power256(8) == 0x1_0000_0000_0000_0000
  {
    assert Power256(4) == 0x1_0000_0000 && Power256(6) == 0x1_0000_0000_0000;
  }

  lemma {:induction false} PowersGrow(m: nat, n: nat)
    requires m <= n
    ensures Power256(m) <= Power256(n)
    decreases n - m
  {
    if m < n {
      PowersGrow(m, n - 1);
    }
  }

  lemma {:induction false} BigEndianInjective(s: seq<byte>, t: seq<byte>)
    requires |s| == |t| && BigEndian(s) == BigEndian(t)
    ensures s == t
    decreases |s|
  {
    if |s| > 0 {
      var m := |s| - 1;
      SameDigits(BigEndian(s[..m]), s[m] as int, BigEndian(t[..m]), t[m] as int);
      SameByte(s[m], t[m]);
      BigEndianInjective(s[..m], t[..m]);
      assert s == s[..m] + [s[m]] && t == t[..m] + [t[m]];
    }
  }

  lemma SameDigits(a: int, b: nat, c: int, d: nat)
    requires b < 256 && d < 256 && 256 * a + b == 256 * c + d
    ensures a == c && b == d
  {
  }

  lemma SameByte(b: byte, c: byte)
    requires b as int == c as int
    ensures b == c
  {
  }

  // ----- Reading: shifting in a byte multiplies by 256

  lemma ShiftInNumber32(v: bv32, b: byte)
    requires v as int < 0x100_0000
    ensures ShiftIn32(v, b) as int == 256 * (v as int) + b as int
  {
    RoomFor32(v);
    ShiftedNumber32(v, b);
  }

  lemma RoomFor32(v: bv32)
    requires v as int < 0x100_0000
    ensures v & 0xFF00_0000 == 0
  {
  }

  lemma ShiftedNumber32(v: bv32, b: byte)
    requires v & 0xFF00_0000 == 0
    ensures ((v << 8) | (b as bv32)) as int == 256 * (v as int) + b as int
  {
  }

  lemma ShiftInNumber64(v: bv64, b: byte)
    requires v as int < 0x100_0000_0000_0000
    ensures ShiftIn64(v, b) as int == 256 * (v as int) + b as int
  {
    RoomFor64(v);
    ShiftedNumber64(v, b);
  }

  lemma RoomFor64(v: bv64)
    requires v as int < 0x100_0000_0000_0000
    ensures v & 0xFF00_0000_0000_0000 == 0
  {
  }

  lemma ShiftedNumber64(v: bv64, b: byte)
    requires v & 0xFF00_0000_0000_0000 == 0
    ensures ((v << 8) | (b as bv64)) as int == 256 * (v as int) + b as int
  {
  }

  lemma {:induction false} Join32Number(s: seq<byte>)
    requires |s| <= 4
    ensures Join32(s) as int == BigEndian(s)
    decreases |s|
  {
    hide ShiftIn32, Power256;
    if |s| > 0 {
      var init := s[..|s| - 1];
      Join32Number(init);
      BigEndianBound(init);
      PowersGrow(|init|, 3);
      Powers();
      ShiftInNumber32(Join32(init), s[|s| - 1]);
    } else {
      ZeroWords();
    }
  }

  lemma {:induction false} Join64Number(s: seq<byte>)
    requires |s| <= 8
    ensures Join64(s) as int == BigEndian(s)
    decreases |s|
  {
    hide ShiftIn64, Power256;
    if |s| > 0 {
      var init := s[..|s| - 1];
      Join64Number(init);
      BigEndianBound(init);
      PowersGrow(|init|, 7);
      Powers();
      ShiftInNumber64(Join64(init), s[|s| - 1]);
    } else {
      ZeroWords();
    }
  }

  lemma ZeroWords()
    ensures (0 as bv32) as int == 0 && (0 as bv64) as int == 0 && (0 as byte) as int == 0
  {
  }

  lemma Join16Number(s: seq<byte>)
    requires |s| == 2
    ensures Join16(s) as int == BigEndian(s)
  {
    assert s[..1][..0] == [];
    assert BigEndian(s[..1]) == s[0] as int;
    PairNumber(s[0], s[1]);
  }

  lemma PairNumber(a: byte, b: byte)
    ensures (((a as bv32 << 8) | (b as bv32)) as bv16) as int == 256 * (a as int) + b as int
  {
  }

  // ----- Writing: the bytes of a word are the digits of its number

  lemma Bytes16Number(v: bv16)
    ensures BigEndian(Bytes16(v)) == v as int
  {
    hide Bytes16, Join16, BigEndian;
    Join16OfBytes(v);
    Join16Number(Bytes16(v));
  }

  lemma Bytes32Number(v: bv32)
    ensures BigEndian(Bytes32(v)) == v as int
  {
    hide Bytes32, Join32, BigEndian;
    Join32OfBytes(v);
    Join32Number(Bytes32(v));
  }

  lemma Bytes64Number(v: bv64)
    ensures BigEndian(Bytes64(v)) == v as int
  {
    hide Bytes64, Join64, BigEndian;
    Join64OfBytes(v);
    Join64Number(Bytes64(v));
  }

  /** A word is determined by its number. */
  lemma SameWord(x: bv32, y: bv32)
    ensures x == y <==> x as int == y as int
  {
    hide Bytes32, Join32, BigEndian;
    if x as int == y as int {
      Bytes32Number(x);
      Bytes32Number(y);
      BigEndianInjective(Bytes32(x), Bytes32(y));
      Join32OfBytes(x);
      Join32OfBytes(y);
    }
  }

  // ----- Words from numbers

  /** The byte that stands for `n`, built bit by bit. */
  function ByteOfNumber(n: nat): (b: byte) {
    if n == 0 then 0 else (ByteOfNumber(n / 2) << 1) | (if n % 2 == 1 then 1 else 0)
  }

  lemma {:induction false} ByteNumber(n: nat)
    requires n < 256
    ensures ByteOfNumber(n) as int == n
    decreases n
  {
    if n == 0 {
      ZeroWords();
    } else {
      ByteNumber(n / 2);
      RoomForBit(ByteOfNumber(n / 2));
      BitBelow(ByteOfNumber(n / 2), n % 2 == 1);
    }
  }

  lemma RoomForBit(b: byte)
    requires b as int < 128
    ensures b & 0x80 == 0
  {
  }

  lemma BitBelow(b: byte, bit: bool)
    requires b & 0x80 == 0
    ensures ((b << 1) | (if bit then 1 else 0)) as int == 2 * (b as int) + if bit then 1 else 0
  {
  }

  /** The 32-bit word that stands for `n`. */
  function Word32(n: nat): bv32 {
    if n == 0 then 0 else ShiftIn32(Word32(n / 256), ByteOfNumber(n % 256))
  }

  lemma {:induction false} Word32Number(n: nat)
    requires n < TWO_TO_THE_32
    ensures Word32(n) as int == n
    decreases n
  {
    hide ShiftIn32, ByteOfNumber;
    if n == 0 {
      ZeroWords();
    } else {
      Word32Number(n / 256);
      ByteNumber(n % 256);
      ShiftInNumber32(Word32(n / 256), ByteOfNumber(n % 256));
    }
  }

  /** The 64-bit word that stands for `n`. */
  function Word64(n: nat): bv64 {
    if n == 0 then 0 else ShiftIn64(Word64(n / 256), ByteOfNumber(n % 256))
  }

  lemma {:induction false} Word64Number(n: nat)
    requires n < TWO_TO_THE_64
    ensures Word64(n) as int == n
    decreases n
  {
    hide ShiftIn64, ByteOfNumber;
    if n == 0 {
      ZeroWords();
    } else {
      Word64Number(n / 256);
      ByteNumber(n % 256);
      ShiftInNumber64(Word64(n / 256), ByteOfNumber(n % 256));
    }
  }

  // ----- The fields of a frame on the wire

  /** `t` is the signed number that the two's-complement word with number `n` stands for. */
  predicate IsSigned(t: int, n: int) {
    -0x8000_0000 <= t < 0x8000_0000 && (t - n) % 0x1_0000_0000 == 0
  }

  /** What a serialised frame holds, by position and as numbers. */
  lemma WireFormat(frame: TelemetryFrame)
    ensures var s := Serialize(frame);
            && |s| == 34 && s[0] == 0x54 && s[1] == 0x4C
            && s[2] == frame.header.version && s[3] == frame.header.messageType
            && BigEndian(s[4..6]) == 12
            && BigEndian(s[6..10]) == frame.header.sequence as int
            && BigEndian(s[10..18]) == frame.header.timestamp as int
            && BigEndian(s[18..22]) == frame.payload.temperature as int
            && BigEndian(s[22..26]) == frame.payload.pressure as int
            && BigEndian(s[26..28]) == frame.payload.supply as int
            && BigEndian(s[28..30]) == frame.payload.flags as int
            && BigEndian(s[30..34]) == Crc32.Crc(s[..30]) as int
  {
    hide Serialize, Bytes16, Bytes32, Bytes64, BigEndian, Body;
    var s := Serialize(frame);
    BodyLayout(frame);
    PayloadSizeNumber();
    Bytes16Number(TELEMETRY_PAYLOAD_SIZE);
    Bytes32Number(frame.header.sequence);
    Bytes64Number(frame.header.timestamp);
    Bytes32Number(frame.payload.temperature);
    Bytes32Number(frame.payload.pressure);
    Bytes16Number(frame.payload.supply);
    Bytes16Number(frame.payload.flags);
    Bytes32Number(Crc32.Crc(Body(frame)));
    assert s[30..34] == s[CRC_OFFSET..];
  }

  lemma PayloadSizeNumber()
    ensures TELEMETRY_PAYLOAD_SIZE as int == 12
  {
  }
}
