/**
 Which corruptions of a serialised frame the parser notices. A corruption is the exclusive or with an error string;
 whether the checksum still holds depends on the error alone, through its syndrome.
 */
module ErrorDetection {
  import opened Words
  import opened Crc32
  import opened CrcAlgebra
  import opened CrcWindows
  import opened Protocol
  import opened ProtocolCodec

  /** What an error adds to the difference between the stored and the computed checksum. */
  function Syndrome(e: seq<byte>): bv32
    requires |e| == FRAME_SIZE
  {
    Xor32(Register(0, e[..CRC_OFFSET]), Join32(e[CRC_OFFSET..]))
  }

  predicate ChecksumHolds(s: seq<byte>)
    requires |s| == FRAME_SIZE
  {
    Join32(s[CRC_OFFSET..]) == Crc(s[..CRC_OFFSET])
  }

  // ----- Linearity of the syndrome

  lemma Join32Xor(a: seq<byte>, b: seq<byte>)
    requires |a| == |b| == 4
    ensures Join32(XorBytes(a, b)) == Xor32(Join32(a), Join32(b))
  {
    hide Join32;
    Join32OfFour(a);
    Join32OfFour(b);
    Join32OfFour(XorBytes(a, b));
    Big32Xor(a[0], a[1], a[2], a[3], b[0], b[1], b[2], b[3]);
  }

  lemma Big32Xor(a: byte, b: byte, c: byte, d: byte, p: byte, q: byte, r: byte, s: byte)
    ensures Big32(Xor8(a, p), Xor8(b, q), Xor8(c, r), Xor8(d, s)) == Xor32(Big32(a, b, c, d), Big32(p, q, r, s))
  {
  }

  lemma CrcOfXor(a: seq<byte>, d: seq<byte>)
    requires |a| == |d|
    ensures Crc(XorBytes(a, d)) == Xor32(Crc(a), Register(0, d))
  {
    hide Register, Xor32;
    XorUnits(INITIAL_VALUE);
    RegisterXor(INITIAL_VALUE, 0, a, d);
    FinalXorMoves(Register(INITIAL_VALUE, a), Register(0, d));
  }

  lemma FinalXorMoves(x: bv32, y: bv32)
    ensures Xor32(x, y) ^ FINAL_XOR == Xor32(x ^ FINAL_XOR, y)
  {
  }

  lemma SyndromeXor(d: seq<byte>, e: seq<byte>)
    requires |d| == |e| == FRAME_SIZE
    ensures Syndrome(XorBytes(d, e)) == Xor32(Syndrome(d), Syndrome(e))
  {
    hide Register, Join32, Xor32, Xor8;
    var x := XorBytes(d, e);
    assert x[..CRC_OFFSET] == XorBytes(d[..CRC_OFFSET], e[..CRC_OFFSET]);
    assert x[CRC_OFFSET..] == XorBytes(d[CRC_OFFSET..], e[CRC_OFFSET..]);
    XorUnits(0);
    RegisterXor(0, 0, d[..CRC_OFFSET], e[..CRC_OFFSET]);
    Join32Xor(d[CRC_OFFSET..], e[CRC_OFFSET..]);
    XorInterchange(Register(0, d[..CRC_OFFSET]), Register(0, e[..CRC_OFFSET]),
                   Join32(d[CRC_OFFSET..]), Join32(e[CRC_OFFSET..]));
  }

  lemma XorBalance(x: bv32, y: bv32, z: bv32)
    ensures Xor32(x, y) == Xor32(x, z) <==> Xor32(z, y) == 0
  {
    hide Xor32;
    if Xor32(x, y) == Xor32(x, z) {
      XorLeftCancel(x, y, z);
      XorUnits(y);
    }
    if Xor32(z, y) == 0 {
      XorUnits(z);
      XorLeftCancel(z, y, z);
    }
  }

  /** The checksum survives exactly the errors whose syndrome is zero. */
  lemma ChecksumAfterError(s: seq<byte>, e: seq<byte>)
    requires |s| == |e| == FRAME_SIZE && ChecksumHolds(s)
    ensures ChecksumHolds(XorBytes(s, e)) <==> Syndrome(e) == 0
  {
    hide Register, Crc, Join32, Xor32, Xor8;
    var x := XorBytes(s, e);
    assert x[..CRC_OFFSET] == XorBytes(s[..CRC_OFFSET], e[..CRC_OFFSET]);
    assert x[CRC_OFFSET..] == XorBytes(s[CRC_OFFSET..], e[CRC_OFFSET..]);
    CrcOfXor(s[..CRC_OFFSET], e[..CRC_OFFSET]);
    Join32Xor(s[CRC_OFFSET..], e[CRC_OFFSET..]);
    XorBalance(Crc(s[..CRC_OFFSET]), Join32(e[CRC_OFFSET..]), Register(0, e[..CRC_OFFSET]));
  }

  lemma SerializedChecksumHolds(frame: TelemetryFrame)
    ensures ChecksumHolds(Serialize(frame))
  {
    hide Serialize, Crc, Join32, Bytes32;
    BodyLayout(frame);
    Join32OfBytes(Crc(Body(frame)));
  }

  /** Received in place of `Serialize(frame)`. */
  function Corrupted(frame: TelemetryFrame, e: seq<byte>): (r: seq<byte>)
    requires |e| == FRAME_SIZE
    ensures |r| == FRAME_SIZE
  {
    XorBytes(Serialize(frame), e)
  }

  predicate HeaderUntouched(e: seq<byte>)
    requires |e| == FRAME_SIZE
  {
    e[0] == 0 && e[1] == 0 && e[2] == 0 && e[3] == 0 && e[4] == 0 && e[5] == 0
  }

  lemma HeaderSurvives(frame: TelemetryFrame, e: seq<byte>)
    requires |e| == FRAME_SIZE && HeaderUntouched(e)
    ensures Corrupted(frame, e)[..SEQUENCE_OFFSET] == Serialize(frame)[..SEQUENCE_OFFSET]
  {
    hide Serialize, Xor8;
    forall i | 0 <= i < SEQUENCE_OFFSET
      ensures Corrupted(frame, e)[i] == Serialize(frame)[i]
    {
      XorZeroByte(Serialize(frame)[i]);
    }
  }

  lemma XorZeroByte(b: byte)
    ensures Xor8(b, 0) == b
  {
  }

  /** No error with a nonzero syndrome is accepted, whatever the frame. */
  lemma NonzeroSyndromeRejected(frame: TelemetryFrame, e: seq<byte>)
    requires |e| == FRAME_SIZE && Syndrome(e) != 0
    ensures Deserialize(Corrupted(frame, e)).frame.None?
    ensures Supported(frame) && HeaderUntouched(e) ==> Deserialize(Corrupted(frame, e)).error == ChecksumMismatch
  {
    hide Syndrome, Serialize, Join16, Join32, Crc, Bytes16, Bytes32, Fields, Xor8;
    SerializedChecksumHolds(frame);
    ChecksumAfterError(Serialize(frame), e);
    if Supported(frame) && HeaderUntouched(e) {
      SameHeader(frame, e);
    }
  }

  /** With the header bytes intact, acceptance is exactly a zero syndrome. */
  lemma ZeroSyndromeAccepted(frame: TelemetryFrame, e: seq<byte>)
    requires |e| == FRAME_SIZE && Syndrome(e) == 0 && HeaderUntouched(e)
    ensures Deserialize(Corrupted(frame, e)).frame.Some? <==> Supported(frame)
  {
    hide Syndrome, Serialize, Join16, Join32, Crc, Bytes16, Bytes32, Fields, Xor8;
    SerializedChecksumHolds(frame);
    ChecksumAfterError(Serialize(frame), e);
    SameHeader(frame, e);
  }

  lemma SameHeader(frame: TelemetryFrame, e: seq<byte>)
    requires |e| == FRAME_SIZE && HeaderUntouched(e)
    ensures var r := Corrupted(frame, e);
            && r[0] == MAGIC[0] && r[1] == MAGIC[1]
            && r[VERSION_OFFSET] == frame.header.version && r[MESSAGE_TYPE_OFFSET] == frame.header.messageType
            && Join16(r[PAYLOAD_SIZE_OFFSET..SEQUENCE_OFFSET]) == TELEMETRY_PAYLOAD_SIZE
  {
    hide Serialize, Join16, Bytes16, Xor8;
    var r, s := Corrupted(frame, e), Serialize(frame);
    HeaderSurvives(frame, e);
    BodyLayout(frame);
    Join16OfBytes(TELEMETRY_PAYLOAD_SIZE);
    assert forall i :: 0 <= i < SEQUENCE_OFFSET ==> r[i] == r[..SEQUENCE_OFFSET][i] == s[i];
    assert r[PAYLOAD_SIZE_OFFSET..SEQUENCE_OFFSET] == s[PAYLOAD_SIZE_OFFSET..SEQUENCE_OFFSET];
  }
}
