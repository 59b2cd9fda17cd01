/** Serialisation and parsing are inverse to each other: the accepted strings are exactly the serialised frames. */
module ProtocolCodec {
  import opened Words
  import opened Crc32
  import opened Protocol

  /** What the parser demands of a header besides its payload size, which serialisation fixes. */
  predicate Supported(frame: TelemetryFrame) {
    frame.header.version == SUPPORTED_VERSION && frame.header.messageType == SUPPORTED_MESSAGE_TYPE
  }

  /** Serialisation ignores the payload size of the header and writes the constant. */
  function Canonical(frame: TelemetryFrame): TelemetryFrame {
    frame.(header := frame.header.(payloadSize := TELEMETRY_PAYLOAD_SIZE))
  }

  // ----- Words and bytes

  lemma Join16OfBytes(v: bv16)
    ensures Join16(Bytes16(v)) == v
  {
  }

  lemma BytesOfJoin16(s: seq<byte>)
    requires |s| == 2
    ensures Bytes16(Join16(s)) == s
  {
  }

  function Big32(a: byte, b: byte, c: byte, d: byte): bv32 {
    ((((((a as bv32) << 8) | (b as bv32)) << 8) | (c as bv32)) << 8) | (d as bv32)
  }

  function Big64(high: bv32, low: bv32): bv64 {
    ((high as bv64) << 32) | (low as bv64)
  }

  lemma Join32OfFour(s: seq<byte>)
    requires |s| == 4
    ensures Join32(s) == Big32(s[0], s[1], s[2], s[3])
  {
    var s3, s2, s1, s0 := s[..3], s[..2], s[..1], s[..0];
    assert s3[..2] == s2 && s2[..1] == s1 && s1[..0] == s0;
    hide ShiftIn32, Big32;
    assert Join32(s1) == ShiftIn32(0, s[0]);
    assert Join32(s2) == ShiftIn32(Join32(s1), s[1]);
    assert Join32(s3) == ShiftIn32(Join32(s2), s[2]);
    assert Join32(s) == ShiftIn32(Join32(s3), s[3]);
    FourShifts(s[0], s[1], s[2], s[3]);
  }

  lemma FourShifts(a: byte, b: byte, c: byte, d: byte)
    ensures ShiftIn32(ShiftIn32(ShiftIn32(ShiftIn32(0, a), b), c), d) == Big32(a, b, c, d)
  {
  }

  lemma Join32OfBytes(v: bv32)
    ensures Join32(Bytes32(v)) == v
  {
    hide Join32;
    Join32OfFour(Bytes32(v));
  }

  lemma BytesOfJoin32(s: seq<byte>)
    requires |s| == 4
    ensures Bytes32(Join32(s)) == s
  {
    hide Join32;
    Join32OfFour(s);
  }

  /** A 64-bit read is two 32-bit reads. */
  lemma Join64OfEight(s: seq<byte>)
    requires |s| == 8
    ensures Join64(s) == Big64(Big32(s[0], s[1], s[2], s[3]), Big32(s[4], s[5], s[6], s[7]))
  {
    var s7, s6, s5, s4, s3, s2, s1, s0 := s[..7], s[..6], s[..5], s[..4], s[..3], s[..2], s[..1], s[..0];
    assert s7[..6] == s6 && s6[..5] == s5 && s5[..4] == s4 && s4[..3] == s3;
    assert s3[..2] == s2 && s2[..1] == s1 && s1[..0] == s0;
    hide ShiftIn64, Big32, Big64;
    assert Join64(s1) == ShiftIn64(0, s[0]);
    assert Join64(s2) == ShiftIn64(Join64(s1), s[1]);
    assert Join64(s3) == ShiftIn64(Join64(s2), s[2]);
    assert Join64(s4) == ShiftIn64(Join64(s3), s[3]);
    assert Join64(s5) == ShiftIn64(Join64(s4), s[4]);
    assert Join64(s6) == ShiftIn64(Join64(s5), s[5]);
    assert Join64(s7) == ShiftIn64(Join64(s6), s[6]);
    assert Join64(s) == ShiftIn64(Join64(s7), s[7]);
    EightShifts(s[0], s[1], s[2], s[3], s[4], s[5], s[6], s[7]);
  }

  lemma EightShifts(a: byte, b: byte, c: byte, d: byte, e: byte, f: byte, g: byte, h: byte)
    ensures ShiftIn64(ShiftIn64(ShiftIn64(ShiftIn64(
              ShiftIn64(ShiftIn64(ShiftIn64(ShiftIn64(0, a), b), c), d), e), f), g), h)
         == Big64(Big32(a, b, c, d), Big32(e, f, g, h))
  {
  }

  lemma Byte64Shifts(v: bv64)
    ensures Byte64(v, 0) == ((v >> 56) & 0xFF) as byte && Byte64(v, 1) == ((v >> 48) & 0xFF) as byte
    ensures Byte64(v, 2) == ((v >> 40) & 0xFF) as byte && Byte64(v, 3) == ((v >> 32) & 0xFF) as byte
    ensures Byte64(v, 4) == ((v >> 24) & 0xFF) as byte && Byte64(v, 5) == ((v >> 16) & 0xFF) as byte
    ensures Byte64(v, 6) == ((v >> 8) & 0xFF) as byte && Byte64(v, 7) == (v & 0xFF) as byte
  {
    hide Byte64;
    Byte64At0(v);
    Byte64At1(v);
    Byte64At2(v);
    Byte64At3(v);
    Byte64At4(v);
    Byte64At5(v);
    Byte64At6(v);
    Byte64At7(v);
  }

  lemma Byte64At0(v: bv64)
    ensures Byte64(v, 0) == ((v >> 56) & 0xFF) as byte
  {
  }

  lemma Byte64At1(v: bv64)
    ensures Byte64(v, 1) == ((v >> 48) & 0xFF) as byte
  {
  }

  lemma Byte64At2(v: bv64)
    ensures Byte64(v, 2) == ((v >> 40) & 0xFF) as byte
  {
  }

  lemma Byte64At3(v: bv64)
    ensures Byte64(v, 3) == ((v >> 32) & 0xFF) as byte
  {
  }

  lemma Byte64At4(v: bv64)
    ensures Byte64(v, 4) == ((v >> 24) & 0xFF) as byte
  {
  }

  lemma Byte64At5(v: bv64)
    ensures Byte64(v, 5) == ((v >> 16) & 0xFF) as byte
  {
  }

  lemma Byte64At6(v: bv64)
    ensures Byte64(v, 6) == ((v >> 8) & 0xFF) as byte
  {
  }

  lemma Byte64At7(v: bv64)
    ensures Byte64(v, 7) == (v & 0xFF) as byte
  {
  }

  lemma Big64OfBytes(v: bv64)
    ensures Big64(Big32(((v >> 56) & 0xFF) as byte, ((v >> 48) & 0xFF) as byte,
                        ((v >> 40) & 0xFF) as byte, ((v >> 32) & 0xFF) as byte),
                  Big32(((v >> 24) & 0xFF) as byte, ((v >> 16) & 0xFF) as byte,
                        ((v >> 8) & 0xFF) as byte, (v & 0xFF) as byte)) == v
  {
  }

  lemma BytesOfBig64(a: byte, b: byte, c: byte, d: byte, e: byte, f: byte, g: byte, h: byte, v: bv64)
    requires v == Big64(Big32(a, b, c, d), Big32(e, f, g, h))
    ensures ((v >> 56) & 0xFF) as byte == a && ((v >> 48) & 0xFF) as byte == b
    ensures ((v >> 40) & 0xFF) as byte == c && ((v >> 32) & 0xFF) as byte == d
    ensures ((v >> 24) & 0xFF) as byte == e && ((v >> 16) & 0xFF) as byte == f
    ensures ((v >> 8) & 0xFF) as byte == g && (v & 0xFF) as byte == h
  {
  }

  lemma Join64OfBytes(v: bv64)
    ensures Join64(Bytes64(v)) == v
  {
    hide Join64, Byte64, Big32, Big64;
    Join64OfEight(Bytes64(v));
    Byte64Shifts(v);
    Big64OfBytes(v);
  }

  lemma BytesOfJoin64(s: seq<byte>)
    requires |s| == 8
    ensures Bytes64(Join64(s)) == s
  {
    hide Join64, Byte64, Big32, Big64;
    var v := Join64(s);
    Join64OfEight(s);
    Byte64Shifts(v);
    BytesOfBig64(s[0], s[1], s[2], s[3], s[4], s[5], s[6], s[7], v);
  }

  // ----- The frame

  lemma BodyLayout(frame: TelemetryFrame)
    ensures var s := Serialize(frame);
            && s[..CRC_OFFSET] == Body(frame)
            && s[0] == MAGIC[0] && s[1] == MAGIC[1]
            && s[VERSION_OFFSET] == frame.header.version
            && s[MESSAGE_TYPE_OFFSET] == frame.header.messageType
            && s[PAYLOAD_SIZE_OFFSET..SEQUENCE_OFFSET] == Bytes16(TELEMETRY_PAYLOAD_SIZE)
            && s[SEQUENCE_OFFSET..TIMESTAMP_OFFSET] == Bytes32(frame.header.sequence)
            && s[TIMESTAMP_OFFSET..TEMPERATURE_OFFSET] == Bytes64(frame.header.timestamp)
            && s[TEMPERATURE_OFFSET..PRESSURE_OFFSET] == Bytes32(frame.payload.temperature)
            && s[PRESSURE_OFFSET..SUPPLY_VOLTAGE_OFFSET] == Bytes32(frame.payload.pressure)
            && s[SUPPLY_VOLTAGE_OFFSET..STATUS_FLAGS_OFFSET] == Bytes16(frame.payload.supply)
            && s[STATUS_FLAGS_OFFSET..CRC_OFFSET] == Bytes16(frame.payload.flags)
            && s[CRC_OFFSET..] == Bytes32(Crc(Body(frame)))
  {
    hide Bytes16, Bytes32, Bytes64, Crc;
  }

  lemma FieldsOfSerialized(frame: TelemetryFrame)
    ensures Fields(Serialize(frame)) == Canonical(frame)
  {
    hide Join16, Join32, Join64, Bytes16, Bytes32, Bytes64, Serialize;
    BodyLayout(frame);
    Join16OfBytes(TELEMETRY_PAYLOAD_SIZE);
    Join32OfBytes(frame.header.sequence);
    Join64OfBytes(frame.header.timestamp);
    Join32OfBytes(frame.payload.temperature);
    Join32OfBytes(frame.payload.pressure);
    Join16OfBytes(frame.payload.supply);
    Join16OfBytes(frame.payload.flags);
  }

  /** Every frame comes back, with the payload size set, exactly when its version and type are the supported ones. */
  lemma SerializeThenDeserialize(frame: TelemetryFrame)
    ensures Deserialize(Serialize(frame)) ==
            if frame.header.version != SUPPORTED_VERSION then Failure(UnsupportedVersion)
            else if frame.header.messageType != SUPPORTED_MESSAGE_TYPE then Failure(UnsupportedMessageType)
            else ParseResult(Some(Canonical(frame)), NoError)
  {
    hide Join16, Join32, Bytes16, Bytes32, Fields, Serialize, Crc, Body;
    BodyLayout(frame);
    FieldsOfSerialized(frame);
    Join16OfBytes(TELEMETRY_PAYLOAD_SIZE);
    Join32OfBytes(Crc(Body(frame)));
  }

  lemma BodyOfFields(bytes: seq<byte>)
    requires |bytes| == FRAME_SIZE && bytes[0] == MAGIC[0] && bytes[1] == MAGIC[1]
    requires Join16(bytes[PAYLOAD_SIZE_OFFSET..SEQUENCE_OFFSET]) == TELEMETRY_PAYLOAD_SIZE
    ensures Body(Fields(bytes)) == bytes[..CRC_OFFSET]
  {
    hide Join16, Join32, Join64, Bytes16, Bytes32, Bytes64;
    BytesOfJoin16(bytes[PAYLOAD_SIZE_OFFSET..SEQUENCE_OFFSET]);
    BytesOfJoin32(bytes[SEQUENCE_OFFSET..TIMESTAMP_OFFSET]);
    BytesOfJoin64(bytes[TIMESTAMP_OFFSET..TEMPERATURE_OFFSET]);
    BytesOfJoin32(bytes[TEMPERATURE_OFFSET..PRESSURE_OFFSET]);
    BytesOfJoin32(bytes[PRESSURE_OFFSET..SUPPLY_VOLTAGE_OFFSET]);
    BytesOfJoin16(bytes[SUPPLY_VOLTAGE_OFFSET..STATUS_FLAGS_OFFSET]);
    BytesOfJoin16(bytes[STATUS_FLAGS_OFFSET..CRC_OFFSET]);
    HeaderCut(bytes);
    PayloadCut(bytes);
    assert bytes[..CRC_OFFSET] == bytes[..TEMPERATURE_OFFSET] + bytes[TEMPERATURE_OFFSET..CRC_OFFSET];
  }

  lemma HeaderCut(bytes: seq<byte>)
    requires |bytes| == FRAME_SIZE
    ensures bytes[..TEMPERATURE_OFFSET]
         == [bytes[0], bytes[1]] + [bytes[VERSION_OFFSET], bytes[MESSAGE_TYPE_OFFSET]] +
            bytes[PAYLOAD_SIZE_OFFSET..SEQUENCE_OFFSET] + bytes[SEQUENCE_OFFSET..TIMESTAMP_OFFSET] +
            bytes[TIMESTAMP_OFFSET..TEMPERATURE_OFFSET]
  {
  }

  lemma PayloadCut(bytes: seq<byte>)
    requires |bytes| == FRAME_SIZE
    ensures bytes[TEMPERATURE_OFFSET..CRC_OFFSET]
         == bytes[TEMPERATURE_OFFSET..PRESSURE_OFFSET] + bytes[PRESSURE_OFFSET..SUPPLY_VOLTAGE_OFFSET] +
            bytes[SUPPLY_VOLTAGE_OFFSET..STATUS_FLAGS_OFFSET] + bytes[STATUS_FLAGS_OFFSET..CRC_OFFSET]
  {
  }

  /** What the parser accepts is what serialising its answer gives back. */
  lemma DeserializeThenSerialize(bytes: seq<byte>)
    requires Deserialize(bytes).frame.Some?
    ensures var frame := Deserialize(bytes).frame.value;
            && Supported(frame) && frame == Canonical(frame)
            && Serialize(frame) == bytes
  {
    hide Join16, Join32, Bytes32, Crc, Body, Fields;
    var frame := Fields(bytes);
    FieldsHeader(bytes);
    BodyOfFields(bytes);
    BytesOfJoin32(bytes[CRC_OFFSET..]);
  }

  lemma FieldsHeader(bytes: seq<byte>)
    requires |bytes| == FRAME_SIZE
    ensures var header := Fields(bytes).header;
            && header.version == bytes[VERSION_OFFSET] && header.messageType == bytes[MESSAGE_TYPE_OFFSET]
            && header.payloadSize == Join16(bytes[PAYLOAD_SIZE_OFFSET..SEQUENCE_OFFSET])
  {
    hide Join16, Join32, Join64;
  }

  /** The accepted strings are exactly the image of serialisation over the supported frames. */
  lemma AcceptedIffSerialized(bytes: seq<byte>)
    ensures Deserialize(bytes).frame.Some? <==> exists frame :: Supported(frame) && bytes == Serialize(frame)
  {
    hide Deserialize, Serialize;
    if Deserialize(bytes).frame.Some? {
      DeserializeThenSerialize(bytes);
    }
    if frame :| Supported(frame) && bytes == Serialize(frame) {
      SerializeThenDeserialize(frame);
    }
  }

  /** Two frames share a serialised form only when they differ in nothing but the ignored payload size. */
  lemma SerializeInjective(f: TelemetryFrame, g: TelemetryFrame)
    ensures Serialize(f) == Serialize(g) <==> Canonical(f) == Canonical(g)
  {
    hide Fields, Crc, Bytes16, Bytes32, Bytes64;
    if Serialize(f) == Serialize(g) {
      hide Serialize;
      FieldsOfSerialized(f);
      FieldsOfSerialized(g);
    }
  }
}
