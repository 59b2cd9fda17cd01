/** The deterministic sensor of the firmware, over any table of samples. */
module SensorModel {
  import opened Words
  import opened Protocol
  import opened ProtocolCodec
  import opened Metrics
  import opened Numbers

  const INITIAL_SEQUENCE: nat := 1000
  const INITIAL_TIMESTAMP: nat := 1_000_000
  const TIMESTAMP_INCREMENT: nat := 250_000

  /** The table of the source; temperatures are two's-complement words. */
  const SAMPLES: seq<TelemetrySample> := [
    TelemetrySample(0xFFFF_EA84, 98_500, 2_900, 0),
    TelemetrySample(0, 100_000, 3_300, SENSOR_WARNING),
    TelemetrySample(12_500, 100_800, 3_150, VOLTAGE_WARNING),
    TelemetrySample(23_000, 101_325, 3_300, COMMUNICATION_WARNING),
    TelemetrySample(31_500, 102_100, 3_250, WATCHDOG_EVENT),
    TelemetrySample(45_000, 99_500, 2_800, SENSOR_WARNING | VOLTAGE_WARNING),
    TelemetrySample(18_500, 100_500, 3_000, COMMUNICATION_WARNING | WATCHDOG_EVENT),
    TelemetrySample(27_000, 101_800, 3_350, 0)]

  /** `initial_sequence + index` in 32 bits. */
  function SequenceWord(index: nat): bv32 {
    Word32((INITIAL_SEQUENCE + index) % TWO_TO_THE_32)
  }

  function TimestampWord(index: nat): bv64 {
    Word64((INITIAL_TIMESTAMP + index * TIMESTAMP_INCREMENT) % TWO_TO_THE_64)
  }

  function FrameAt(samples: seq<TelemetrySample>, index: nat): TelemetryFrame
    requires index < |samples|
  {
    TelemetryFrame(
      FrameHeader(SUPPORTED_VERSION, SUPPORTED_MESSAGE_TYPE, TELEMETRY_PAYLOAD_SIZE,
                  SequenceWord(index), TimestampWord(index)),
      samples[index])
  }

  function FramesFrom(samples: seq<TelemetrySample>): (frames: seq<TelemetryFrame>)
    ensures |frames| == |samples|
    ensures forall k :: 0 <= k < |samples| ==> frames[k] == FrameAt(samples, k)
  {
    seq(|samples|, k requires 0 <= k < |samples| => FrameAt(samples, k))
  }

  /** `frame` is what the sensor makes of sample `k`: sequence numbers from 1000, a timestamp every 250 milliseconds. */
  predicate IsFrameOf(frame: TelemetryFrame, samples: seq<TelemetrySample>, k: nat) {
    && k < |samples| && frame.payload == samples[k]
    && frame.header.version == 1 && frame.header.messageType == 1 && frame.header.payloadSize as int == 12
    && frame.header.sequence as int == (1000 + k) % 0x1_0000_0000
    && frame.header.timestamp as int == (1_000_000 + 250_000 * k) % 0x1_0000_0000_0000_0000
  }

  lemma SequenceNumber(k: nat)
    ensures SequenceWord(k) as int == (1000 + k) % 0x1_0000_0000
  {
    hide Word32;
    Word32Number((INITIAL_SEQUENCE + k) % TWO_TO_THE_32);
  }

  lemma FrameAtMeaning(samples: seq<TelemetrySample>, k: nat)
    requires k < |samples|
    ensures IsFrameOf(FrameAt(samples, k), samples, k)
  {
    hide Word32, Word64;
    PayloadSizeNumber();
    SequenceNumber(k);
    Word64Number((INITIAL_TIMESTAMP + k * TIMESTAMP_INCREMENT) % TWO_TO_THE_64);
  }

  /** The value-initialised frame the exhausted sensor returns. */
  const DEFAULT_FRAME: TelemetryFrame :=
    TelemetryFrame(FrameHeader(1, 1, 0, 0, 0), TelemetrySample(0, 0, 0, 0))

  class DeterministicSensorModel {
    const samples: seq<TelemetrySample>
    var nextIndex: nat

    ghost predicate Valid()
      reads this
    {
      nextIndex <= |samples|
    }

    constructor (samples: seq<TelemetrySample>)
      ensures Valid() && this.samples == samples && nextIndex == 0
    {
      this.samples, this.nextIndex := samples, 0;
    }

    predicate HasNext()
      reads this
    {
      nextIndex < |samples|
    }

    function Remaining(): nat
      requires Valid()
      reads this
    {
      |samples| - nextIndex
    }

    method Next() returns (frame: TelemetryFrame)
      requires Valid()
      modifies this
      ensures Valid()
      ensures old(HasNext()) ==> frame == FramesFrom(samples)[old(nextIndex)] && Remaining() == old(Remaining()) - 1
      ensures old(HasNext()) ==> IsFrameOf(frame, samples, old(nextIndex))
      ensures !old(HasNext()) ==>
                && frame.header == FrameHeader(1, 1, 0, 0, 0) && frame.payload == TelemetrySample(0, 0, 0, 0)
                && nextIndex == old(nextIndex)
    {
      if !HasNext() {
        return DEFAULT_FRAME;
      }
      var currentIndex := nextIndex;
      nextIndex := nextIndex + 1;
      FrameAtMeaning(samples, currentIndex);
      return FrameAt(samples, currentIndex);
    }
  }

  /** Whatever the table, a sensor frame survives the wire unchanged. */
  lemma SensorFrameRoundTrip(samples: seq<TelemetrySample>, index: nat)
    requires index < |samples|
    ensures var frame := FrameAt(samples, index);
            Supported(frame) && Deserialize(Serialize(frame)) == ParseResult(Some(frame), NoError)
  {
    hide Serialize, Deserialize, SequenceWord, TimestampWord;
    SerializeThenDeserialize(FrameAt(samples, index));
  }
}
