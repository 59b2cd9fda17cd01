/** Which error stands for which defect. */
module ParseErrors {
  import opened Words
  import opened Crc32
  import opened Protocol
  import opened ProtocolCodec
  import opened Numbers

  /** The first `n` bytes of a string of frame size start a version 1 telemetry frame, as far as they go. */
  predicate HeaderHolds(b: seq<byte>, n: nat)
    requires |b| == 34
  {
    && (n >= 2 ==> b[0] == 0x54 && b[1] == 0x4C)
    && (n >= 3 ==> b[2] == 1)
    && (n >= 4 ==> b[3] == 1)
    && (n >= 6 ==> BigEndian(b[4..6]) == 12)
  }

  /** For every byte string, the error is that of the first check that fails, and each check is about these bytes. */
  lemma ErrorMeaning(b: seq<byte>)
    ensures var e := Deserialize(b).error;
            && (e == InvalidFrameSize <==> |b| != 34)
            && (e == InvalidMagic <==> |b| == 34 && !HeaderHolds(b, 2))
            && (e == UnsupportedVersion <==> |b| == 34 && HeaderHolds(b, 2) && !HeaderHolds(b, 3))
            && (e == UnsupportedMessageType <==> |b| == 34 && HeaderHolds(b, 3) && !HeaderHolds(b, 4))
            && (e == InvalidPayloadSize <==> |b| == 34 && HeaderHolds(b, 4) && !HeaderHolds(b, 6))
            && (e == ChecksumMismatch <==>
                  |b| == 34 && HeaderHolds(b, 6) && BigEndian(b[30..34]) != Crc(b[..30]) as int)
            && (e == NoError <==>
                  |b| == 34 && HeaderHolds(b, 6) && BigEndian(b[30..34]) == Crc(b[..30]) as int)
  {
    hide BigEndian, Join16, Join32, Crc, Fields;
    if |b| == 34 {
      PayloadSizeTwelve(b[4..6]);
      assert b[30..34] == b[CRC_OFFSET..];
      Join32Number(b[30..34]);
      SameWord(Join32(b[30..34]), Crc(b[..30]));
    }
  }

  lemma PayloadSizeTwelve(two: seq<byte>)
    requires |two| == 2
    ensures BigEndian(two) == 12 <==> Join16(two) == TELEMETRY_PAYLOAD_SIZE
  {
    hide BigEndian, Join16;
    PayloadSizeNumber();
    Join16Number(two);
    Bytes16Number(TELEMETRY_PAYLOAD_SIZE);
    if BigEndian(two) == 12 {
      BigEndianInjective(two, Bytes16(TELEMETRY_PAYLOAD_SIZE));
      Join16OfBytes(TELEMETRY_PAYLOAD_SIZE);
    }
  }

  /** The first `n` bytes were received as they were sent. */
  predicate SameStart(sent: seq<byte>, received: seq<byte>, n: nat)
    requires n <= |sent| == |received|
  {
    forall i :: 0 <= i < n ==> received[i] == sent[i]
  }

  /** Whatever is received in place of a frame, the first part of it that differs decides the error. */
  lemma FirstDefectDecides(frame: TelemetryFrame, received: seq<byte>)
    ensures |received| != 34 ==> Deserialize(received).error == InvalidFrameSize
    ensures |received| == 34 && !SameStart(Serialize(frame), received, 2) ==> Deserialize(received).error == InvalidMagic
    ensures Supported(frame) && |received| == 34 ==>
              var sent := Serialize(frame);
              && (SameStart(sent, received, 2) && !SameStart(sent, received, 3) ==>
                    Deserialize(received).error == UnsupportedVersion)
              && (SameStart(sent, received, 3) && !SameStart(sent, received, 4) ==>
                    Deserialize(received).error == UnsupportedMessageType)
              && (SameStart(sent, received, 4) && !SameStart(sent, received, 6) ==>
                    Deserialize(received).error == InvalidPayloadSize)
              && (SameStart(sent, received, 6) ==>
                    Deserialize(received).error == ChecksumMismatch || Deserialize(received).error == NoError)
  {
    hide BigEndian, Deserialize, Serialize, Crc;
    ErrorMeaning(received);
    WireFormat(frame);
    if |received| == 34 {
      SamePayloadSize(Serialize(frame), received);
    }
  }

  lemma SamePayloadSize(sent: seq<byte>, received: seq<byte>)
    requires |sent| == |received| == 34
    ensures SameStart(sent, received, 4) ==>
              (SameStart(sent, received, 6) <==> BigEndian(sent[4..6]) == BigEndian(received[4..6]))
  {
    hide BigEndian;
    var s, r := sent[4..6], received[4..6];
    assert s[0] == sent[4] && s[1] == sent[5] && r[0] == received[4] && r[1] == received[5];
    if BigEndian(s) == BigEndian(r) {
      BigEndianInjective(s, r);
    }
    if SameStart(sent, received, 6) {
      assert s == r;
    }
  }
}
