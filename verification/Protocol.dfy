/** The telemetry frame of protocol version 1: a fixed layout of 34 big-endian bytes closed by a CRC-32. */
module Protocol {
  import opened Words
  import opened Crc32

  const MAGIC: seq<byte> := [0x54, 0x4C]
  const SUPPORTED_VERSION: byte := 1
  const SUPPORTED_MESSAGE_TYPE: byte := 1
  const TELEMETRY_PAYLOAD_SIZE: bv16 := 12
  const FRAME_SIZE: nat := 34

  const VERSION_OFFSET: nat := 2
  const MESSAGE_TYPE_OFFSET: nat := 3
  const PAYLOAD_SIZE_OFFSET: nat := 4
  const SEQUENCE_OFFSET: nat := 6
  const TIMESTAMP_OFFSET: nat := 10
  const TEMPERATURE_OFFSET: nat := 18
  const PRESSURE_OFFSET: nat := 22
  const SUPPLY_VOLTAGE_OFFSET: nat := 26
  const STATUS_FLAGS_OFFSET: nat := 28
  const CRC_OFFSET: nat := 30

  /** The enumerations have an underlying byte, and any byte may be stored in them. */
  datatype FrameHeader = FrameHeader(
    version: byte,
    messageType: byte,
    payloadSize: bv16,
    sequence: bv32,
    timestamp: bv64)

  /** The temperature is kept as its two's-complement word, so that the source's `bit_cast` is the identity. */
  datatype TelemetrySample = TelemetrySample(temperature: bv32, pressure: bv32, supply: bv16, flags: bv16)

  datatype TelemetryFrame = TelemetryFrame(header: FrameHeader, payload: TelemetrySample)

  datatype ParseError =
    | NoError
    | InvalidFrameSize
    | InvalidMagic
    | UnsupportedVersion
    | UnsupportedMessageType
    | InvalidPayloadSize
    | ChecksumMismatch

  datatype ParseResult = ParseResult(frame: Option<TelemetryFrame>, error: ParseError)

  function Failure(error: ParseError): ParseResult {
    ParseResult(None, error)
  }

  // ----- Big-endian fields

  function Bytes16(value: bv16): (r: seq<byte>)
    ensures |r| == 2
  {
    [((value >> 8) & 0xFF) as byte, (value & 0xFF) as byte]
  }

  function Bytes32(value: bv32): (r: seq<byte>)
    ensures |r| == 4
  {
    [((value >> 24) & 0xFF) as byte, ((value >> 16) & 0xFF) as byte,
     ((value >> 8) & 0xFF) as byte, (value & 0xFF) as byte]
  }

  /** `value >> ((7 - index) * 8)`, with the eight shift amounts the loop takes written out. */
  function ShiftFor(value: bv64, index: nat): bv64
    requires index < 8
  {
    match index
    case 0 => value >> 56
    case 1 => value >> 48
    case 2 => value >> 40
    case 3 => value >> 32
    case 4 => value >> 24
    case 5 => value >> 16
    case 6 => value >> 8
    case 7 => value
  }

  /** Byte `index` of the big-endian form of `value`. */
  function Byte64(value: bv64, index: nat): byte
    requires index < 8
  {
    (ShiftFor(value, index) & 0xFF) as byte
  }

  function Bytes64(value: bv64): (r: seq<byte>)
    ensures |r| == 8
  {
    [Byte64(value, 0), Byte64(value, 1), Byte64(value, 2), Byte64(value, 3),
     Byte64(value, 4), Byte64(value, 5), Byte64(value, 6), Byte64(value, 7)]
  }

  function Join16(s: seq<byte>): bv16
    requires |s| == 2
  {
    (((s[0] as bv32) << 8) | (s[1] as bv32)) as bv16
  }

  function ShiftIn32(value: bv32, b: byte): bv32 {
    (value << 8) | (b as bv32)
  }

  function ShiftIn64(value: bv64, b: byte): bv64 {
    (value << 8) | (b as bv64)
  }

  /** The accumulator after shifting in the bytes of `s`. */
  function Join32(s: seq<byte>): bv32 {
    if |s| == 0 then 0 else ShiftIn32(Join32(s[..|s| - 1]), s[|s| - 1])
  }

  function Join64(s: seq<byte>): bv64 {
    if |s| == 0 then 0 else ShiftIn64(Join64(s[..|s| - 1]), s[|s| - 1])
  }

  // ----- The frame

  /** The 30 bytes the checksum covers. */
  function Body(frame: TelemetryFrame): (r: seq<byte>)
    ensures |r| == CRC_OFFSET
  {
    MAGIC + [frame.header.version, frame.header.messageType] + Bytes16(TELEMETRY_PAYLOAD_SIZE) +
    Bytes32(frame.header.sequence) + Bytes64(frame.header.timestamp) + Bytes32(frame.payload.temperature) +
    Bytes32(frame.payload.pressure) + Bytes16(frame.payload.supply) + Bytes16(frame.payload.flags)
  }

  function Serialize(frame: TelemetryFrame): (r: seq<byte>)
    ensures |r| == FRAME_SIZE
  {
    Body(frame) + Bytes32(Crc(Body(frame)))
  }

  /** The fields of a string of frame size, whatever its checksum. */
  function Fields(bytes: seq<byte>): TelemetryFrame
    requires |bytes| == FRAME_SIZE
  {
    TelemetryFrame(
      FrameHeader(
        bytes[VERSION_OFFSET],
        bytes[MESSAGE_TYPE_OFFSET],
        Join16(bytes[PAYLOAD_SIZE_OFFSET..SEQUENCE_OFFSET]),
        Join32(bytes[SEQUENCE_OFFSET..TIMESTAMP_OFFSET]),
        Join64(bytes[TIMESTAMP_OFFSET..TEMPERATURE_OFFSET])),
      TelemetrySample(
        Join32(bytes[TEMPERATURE_OFFSET..PRESSURE_OFFSET]),
        Join32(bytes[PRESSURE_OFFSET..SUPPLY_VOLTAGE_OFFSET]),
        Join16(bytes[SUPPLY_VOLTAGE_OFFSET..STATUS_FLAGS_OFFSET]),
        Join16(bytes[STATUS_FLAGS_OFFSET..CRC_OFFSET])))
  }

  function Deserialize(bytes: seq<byte>): (r: ParseResult)
    ensures r.frame.Some? <==> r.error == NoError
  {
    if |bytes| != FRAME_SIZE then Failure(InvalidFrameSize)
    else if bytes[0] != MAGIC[0] || bytes[1] != MAGIC[1] then Failure(InvalidMagic)
    else if bytes[VERSION_OFFSET] != SUPPORTED_VERSION then Failure(UnsupportedVersion)
    else if bytes[MESSAGE_TYPE_OFFSET] != SUPPORTED_MESSAGE_TYPE then Failure(UnsupportedMessageType)
    else if Join16(bytes[PAYLOAD_SIZE_OFFSET..SEQUENCE_OFFSET]) != TELEMETRY_PAYLOAD_SIZE
    then Failure(InvalidPayloadSize)
    else if Join32(bytes[CRC_OFFSET..]) != Crc(bytes[..CRC_OFFSET]) then Failure(ChecksumMismatch)
    else ParseResult(Some(Fields(bytes)), NoError)
  }

  // ----- The procedures that store into and read from buffers

  method WriteU16(output: array<byte>, offset: nat, value: bv16)
    requires offset + 2 <= output.Length
    modifies output
    ensures output[..offset + 2] == old(output[..offset]) + Bytes16(value)
    ensures output[offset + 2..] == old(output[offset + 2..])
  {
    output[offset] := ((value >> 8) & 0xFF) as byte;
    output[offset + 1] := (value & 0xFF) as byte;
    assert output[offset..offset + 2] == Bytes16(value);
  }

  method WriteU32(output: array<byte>, offset: nat, value: bv32)
    requires offset + 4 <= output.Length
    modifies output
    ensures output[..offset + 4] == old(output[..offset]) + Bytes32(value)
    ensures output[offset + 4..] == old(output[offset + 4..])
  {
    output[offset] := ((value >> 24) & 0xFF) as byte;
    output[offset + 1] := ((value >> 16) & 0xFF) as byte;
    output[offset + 2] := ((value >> 8) & 0xFF) as byte;
    output[offset + 3] := (value & 0xFF) as byte;
    assert output[offset..offset + 4] == Bytes32(value);
  }

  method WriteU64(output: array<byte>, offset: nat, value: bv64)
    requires offset + 8 <= output.Length
    modifies output
    ensures output[..offset + 8] == old(output[..offset]) + Bytes64(value)
    ensures output[offset + 8..] == old(output[offset + 8..])
  {
    hide Byte64;
    for index := 0 to 8
      invariant output[..offset] == old(output[..offset])
      invariant forall k :: 0 <= k < index ==> output[offset + k] == Byte64(value, k)
      invariant output[offset + 8..] == old(output[offset + 8..])
    {
      output[offset + index] := Byte64(value, index);
    }
    assert output[offset..offset + 8] == Bytes64(value);
  }

  method SerializeFrame(frame: TelemetryFrame) returns (output: array<byte>)
    ensures fresh(output) && output[..] == Serialize(frame)
  {
    output := new byte[FRAME_SIZE];
    output[0] := MAGIC[0];
    output[1] := MAGIC[1];
    output[VERSION_OFFSET] := frame.header.version;
    output[MESSAGE_TYPE_OFFSET] := frame.header.messageType;
    assert output[..4] == MAGIC + [frame.header.version, frame.header.messageType];
    WriteU16(output, PAYLOAD_SIZE_OFFSET, TELEMETRY_PAYLOAD_SIZE);
    WriteU32(output, SEQUENCE_OFFSET, frame.header.sequence);
    WriteU64(output, TIMESTAMP_OFFSET, frame.header.timestamp);
    WriteU32(output, TEMPERATURE_OFFSET, frame.payload.temperature);
    WriteU32(output, PRESSURE_OFFSET, frame.payload.pressure);
    WriteU16(output, SUPPLY_VOLTAGE_OFFSET, frame.payload.supply);
    WriteU16(output, STATUS_FLAGS_OFFSET, frame.payload.flags);
    var crc := CalculateCrc32(output[..CRC_OFFSET]);
    WriteU32(output, CRC_OFFSET, crc);
    assert output[..] == output[..FRAME_SIZE];
  }

  method ReadU32(bytes: seq<byte>, offset: nat) returns (value: bv32)
    requires offset + 4 <= |bytes|
    ensures value == Join32(bytes[offset..offset + 4])
  {
    value := 0;
    for index := 0 to 4
      invariant value == Join32(bytes[offset..offset + index])
    {
      value := (value << 8) | (bytes[offset + index] as bv32);
      assert bytes[offset..offset + index + 1][..index] == bytes[offset..offset + index];
    }
  }

  method ReadU64(bytes: seq<byte>, offset: nat) returns (value: bv64)
    requires offset + 8 <= |bytes|
    ensures value == Join64(bytes[offset..offset + 8])
  {
    value := 0;
    for index := 0 to 8
      invariant value == Join64(bytes[offset..offset + index])
    {
      value := (value << 8) | (bytes[offset + index] as bv64);
      assert bytes[offset..offset + index + 1][..index] == bytes[offset..offset + index];
    }
  }

  method ReadU16(bytes: seq<byte>, offset: nat) returns (value: bv16)
    requires offset + 2 <= |bytes|
    ensures value == Join16(bytes[offset..offset + 2])
  {
    var high := (bytes[offset] as bv32) << 8;
    var low := bytes[offset + 1] as bv32;
    return (high | low) as bv16;
  }

  method ParseFrame(bytes: seq<byte>) returns (r: ParseResult)
    ensures r == Deserialize(bytes)
  {
    if |bytes| != FRAME_SIZE {
      return Failure(InvalidFrameSize);
    }
    if bytes[0] != MAGIC[0] || bytes[1] != MAGIC[1] {
      return Failure(InvalidMagic);
    }
    if bytes[VERSION_OFFSET] != SUPPORTED_VERSION {
      return Failure(UnsupportedVersion);
    }
    if bytes[MESSAGE_TYPE_OFFSET] != SUPPORTED_MESSAGE_TYPE {
      return Failure(UnsupportedMessageType);
    }
    var payloadSize := ReadU16(bytes, PAYLOAD_SIZE_OFFSET);
    if payloadSize != TELEMETRY_PAYLOAD_SIZE {
      return Failure(InvalidPayloadSize);
    }
    var expectedCrc := CalculateCrc32(bytes[..CRC_OFFSET]);
    var receivedCrc := ReadU32(bytes, CRC_OFFSET);
    assert bytes[CRC_OFFSET..CRC_OFFSET + 4] == bytes[CRC_OFFSET..];
    if receivedCrc != expectedCrc {
      return Failure(ChecksumMismatch);
    }
    var sequence := ReadU32(bytes, SEQUENCE_OFFSET);
    var timestamp := ReadU64(bytes, TIMESTAMP_OFFSET);
    var temperature := ReadU32(bytes, TEMPERATURE_OFFSET);
    var pressure := ReadU32(bytes, PRESSURE_OFFSET);
    var supply := ReadU16(bytes, SUPPLY_VOLTAGE_OFFSET);
    var flags := ReadU16(bytes, STATUS_FLAGS_OFFSET);
    return ParseResult(
        Some(TelemetryFrame(
               FrameHeader(SUPPORTED_VERSION, SUPPORTED_MESSAGE_TYPE, payloadSize, sequence, timestamp),
               TelemetrySample(temperature, pressure, supply, flags))),
        NoError);
  }
}
