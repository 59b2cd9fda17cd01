/** The counters of host/src/telemetry_metrics.cpp: what one record call does, and what a run of them amounts to. */
module Metrics {
  import opened Words
  import opened Protocol

  type u64 = x: int | 0 <= x < TWO_TO_THE_64
  type i64 = x: int | -0x8000_0000_0000_0000 <= x < 0x8000_0000_0000_0000
  type u32 = x: int | 0 <= x < TWO_TO_THE_32
  type i32 = x: int | -TWO_TO_THE_31 <= x < TWO_TO_THE_31
  type u16 = x: int | 0 <= x < TWO_TO_THE_16

  const SENSOR_WARNING: bv16 := 1
  const VOLTAGE_WARNING: bv16 := 2
  const COMMUNICATION_WARNING: bv16 := 4
  const WATCHDOG_EVENT: bv16 := 8

  predicate HasFlag(flags: bv16, flag: bv16) {
    flags & flag != 0
  }

  function SequenceOf(frame: TelemetryFrame): u32 {
    frame.header.sequence as int
  }

  /** The number a two's-complement word stands for. */
  function Signed(n: u32): i32 {
    if n >= TWO_TO_THE_31 then n - TWO_TO_THE_32 else n
  }

  function TemperatureOf(frame: TelemetryFrame): i32 {
    Signed(frame.payload.temperature as int)
  }

  function SupplyOf(frame: TelemetryFrame): u16 {
    frame.payload.supply as int
  }

  // ----- What the consumer thread accumulates, without bounds

  datatype SequenceStats = SequenceStats(
    first: Option<u32>, last: Option<u32>, missing: nat, duplicates: nat, outOfOrder: nat)

  datatype Warnings = Warnings(sensor: nat, voltage: nat, communication: nat, watchdog: nat)

  datatype Range = Range(minimum: Option<int>, maximum: Option<int>, sum: int)

  datatype Processing = Processing(
    processed: nat, sequences: SequenceStats, warnings: Warnings, temperature: Range, supply: Range)

  const NOTHING_PROCESSED: Processing :=
    Processing(0, SequenceStats(None, None, 0, 0, 0), Warnings(0, 0, 0, 0), Range(None, None, 0), Range(None, None, 0))

  function RecordSequence(s: SequenceStats, sequence: u32): SequenceStats {
    if s.first.None? || s.last.None? then s.(first := Some(sequence), last := Some(sequence))
    else if sequence == s.last.value then s.(duplicates := s.duplicates + 1)
    else if sequence > s.last.value then
      s.(missing := s.missing + (sequence - s.last.value - 1), last := Some(sequence))
    else s.(outOfOrder := s.outOfOrder + 1)
  }

  function CountIf(n: nat, b: bool): nat {
    if b then n + 1 else n
  }

  function RecordFlags(w: Warnings, flags: bv16): Warnings {
    Warnings(
      CountIf(w.sensor, HasFlag(flags, SENSOR_WARNING)),
      CountIf(w.voltage, HasFlag(flags, VOLTAGE_WARNING)),
      CountIf(w.communication, HasFlag(flags, COMMUNICATION_WARNING)),
      CountIf(w.watchdog, HasFlag(flags, WATCHDOG_EVENT)))
  }

  function Min(a: int, b: int): int {
    if b < a then b else a
  }

  function Max(a: int, b: int): int {
    if a < b then b else a
  }

  function RecordReading(r: Range, v: int): Range {
    Range(
      if r.minimum.None? then Some(v) else Some(Min(r.minimum.value, v)),
      if r.minimum.None? || r.maximum.None? then Some(v) else Some(Max(r.maximum.value, v)),
      r.sum + v)
  }

  function Record(p: Processing, frame: TelemetryFrame): Processing {
    Processing(
      p.processed + 1,
      RecordSequence(p.sequences, SequenceOf(frame)),
      RecordFlags(p.warnings, frame.payload.flags),
      RecordReading(p.temperature, TemperatureOf(frame)),
      RecordReading(p.supply, SupplyOf(frame)))
  }

  /** Everything recorded for `frames`, in order. */
  function Fold(frames: seq<TelemetryFrame>): Processing {
    if |frames| == 0 then NOTHING_PROCESSED
    else Record(Fold(frames[..|frames| - 1]), frames[|frames| - 1])
  }

  lemma FoldSnoc(frames: seq<TelemetryFrame>, frame: TelemetryFrame)
    ensures Fold(frames + [frame]) == Record(Fold(frames), frame)
  {
    assert (frames + [frame])[..|frames|] == frames;
  }

  // ----- The same in 64-bit counters, which wrap

  function Wrap64(x: int): u64 {
    x % TWO_TO_THE_64
  }

  function WrapSequences(s: SequenceStats): SequenceStats {
    s.(missing := Wrap64(s.missing), duplicates := Wrap64(s.duplicates), outOfOrder := Wrap64(s.outOfOrder))
  }

  function WrapWarnings(w: Warnings): Warnings {
    Warnings(Wrap64(w.sensor), Wrap64(w.voltage), Wrap64(w.communication), Wrap64(w.watchdog))
  }

  function WrapSum(r: Range): Range {
    r.(sum := Wrap64(r.sum))
  }

  /** What `uint64_t` counters hold of `p`; the signed temperature sum must not overflow and is not wrapped. */
  function Wrapped(p: Processing): Processing {
    p.(processed := Wrap64(p.processed),
       sequences := WrapSequences(p.sequences),
       warnings := WrapWarnings(p.warnings),
       supply := WrapSum(p.supply))
  }

  lemma WrapAdd(x: int, d: int)
    ensures Wrap64(Wrap64(x) + d) == Wrap64(x + d)
  {
  }

  lemma IncWraps(x: nat)
    ensures Inc64(x) == Wrap64(x + 1)
  {
  }

  lemma WrappedSequences(s: SequenceStats, sequence: u32)
    ensures WrapSequences(RecordSequence(WrapSequences(s), sequence)) == WrapSequences(RecordSequence(s, sequence))
  {
    WrapAdd(s.missing, 0);
    WrapAdd(s.duplicates, 0);
    WrapAdd(s.outOfOrder, 0);
    WrapAdd(s.duplicates, 1);
    WrapAdd(s.outOfOrder, 1);
    if s.last.Some? {
      WrapAdd(s.missing, sequence - s.last.value - 1);
    }
    hide Wrap64;
  }

  lemma WrappedCount(n: nat, b: bool)
    ensures Wrap64(CountIf(Wrap64(n), b)) == Wrap64(CountIf(n, b))
  {
    WrapAdd(n, 1);
    WrapAdd(n, 0);
  }

  lemma WrappedFlags(w: Warnings, flags: bv16)
    ensures WrapWarnings(RecordFlags(WrapWarnings(w), flags)) == WrapWarnings(RecordFlags(w, flags))
  {
    hide HasFlag, Wrap64, CountIf;
    WrappedCount(w.sensor, HasFlag(flags, SENSOR_WARNING));
    WrappedCount(w.voltage, HasFlag(flags, VOLTAGE_WARNING));
    WrappedCount(w.communication, HasFlag(flags, COMMUNICATION_WARNING));
    WrappedCount(w.watchdog, HasFlag(flags, WATCHDOG_EVENT));
  }

  lemma WrappedReading(r: Range, v: int)
    ensures WrapSum(RecordReading(WrapSum(r), v)) == WrapSum(RecordReading(r, v))
  {
    WrapAdd(r.sum, v);
    hide Wrap64;
  }

  /** Wrapping at every step or once at the end is the same. */
  lemma WrappedRecord(p: Processing, frame: TelemetryFrame)
    ensures Wrapped(Record(Wrapped(p), frame)) == Wrapped(Record(p, frame))
  {
    WrapAdd(p.processed, 1);
    hide HasFlag, SequenceOf, TemperatureOf, SupplyOf, Wrap64;
    hide RecordSequence, RecordFlags, RecordReading, WrapSequences, WrapWarnings, WrapSum;
    WrappedSequences(p.sequences, SequenceOf(frame));
    WrappedFlags(p.warnings, frame.payload.flags);
    WrappedReading(p.supply, SupplyOf(frame));
  }

  ghost predicate WellFormed(p: Processing) {
    && (p.sequences.first.Some? <==> p.sequences.last.Some?)
    && (p.temperature.minimum.Some? <==> p.temperature.maximum.Some?)
    && (p.supply.minimum.Some? <==> p.supply.maximum.Some?)
  }

  /** Counters that have been wrapped are unchanged by wrapping, and the optional fields are as they were. */
  lemma WrappedFields(p: Processing)
    ensures var w := Wrapped(p);
            && w.sequences == WrapSequences(w.sequences) && w.warnings == WrapWarnings(w.warnings)
            && (WellFormed(p) ==> WellFormed(w))
            && Inc64(w.processed) == Wrap64(w.processed + 1)
            && w.temperature == p.temperature
  {
  }

  lemma {:induction false} FoldWellFormed(frames: seq<TelemetryFrame>)
    ensures WellFormed(Fold(frames)) && Fold(frames).processed == |frames|
    decreases |frames|
  {
    hide HasFlag, SequenceOf, TemperatureOf, SupplyOf, RecordFlags;
    if |frames| > 0 {
      FoldWellFormed(frames[..|frames| - 1]);
    }
  }

  // ----- What the ingesting thread counts

  datatype ParseErrorCounters = ParseErrorCounters(
    invalidFrameSize: nat,
    invalidMagic: nat,
    unsupportedVersion: nat,
    unsupportedMessageType: nat,
    invalidPayloadSize: nat,
    checksumMismatch: nat)

  datatype Counters = Counters(
    inputs: nat, accepted: nat, rejected: nat, queueClosed: nat, parseErrors: ParseErrorCounters)

  const NOTHING_COUNTED: Counters := Counters(0, 0, 0, 0, ParseErrorCounters(0, 0, 0, 0, 0, 0))

  function CountInput(c: Counters): Counters {
    c.(inputs := Inc64(c.inputs))
  }

  function CountAccepted(c: Counters): Counters {
    c.(accepted := Inc64(c.accepted))
  }

  function CountRejected(c: Counters): Counters {
    c.(rejected := Inc64(c.rejected))
  }

  function CountQueueClosed(c: Counters): Counters {
    c.(queueClosed := Inc64(c.queueClosed))
  }

  function CountParseError(c: Counters, error: ParseError): Counters {
    var e := c.parseErrors;
    c.(parseErrors :=
         match error
         case InvalidFrameSize => e.(invalidFrameSize := Inc64(e.invalidFrameSize))
         case InvalidMagic => e.(invalidMagic := Inc64(e.invalidMagic))
         case UnsupportedVersion => e.(unsupportedVersion := Inc64(e.unsupportedVersion))
         case UnsupportedMessageType => e.(unsupportedMessageType := Inc64(e.unsupportedMessageType))
         case InvalidPayloadSize => e.(invalidPayloadSize := Inc64(e.invalidPayloadSize))
         case ChecksumMismatch => e.(checksumMismatch := Inc64(e.checksumMismatch))
         case NoError => e)
  }

  // ----- The object both threads share

  datatype Snapshot = Snapshot(counters: Counters, processing: Processing)

  /** The atomic counters and the consumer's plain fields, the latter grouped as the record call updates them. */
  class TelemetryMetrics {
    var counters: Counters
    var framesProcessed: nat
    var sequences: SequenceStats
    var warnings: Warnings
    var temperature: Range
    var supply: Range

    /** The frames recorded so far. */
    ghost var history: seq<TelemetryFrame>

    function ProcessingNow(): Processing
      reads this
    {
      Processing(framesProcessed, sequences, warnings, temperature, supply)
    }

    /** The processing fields are the wrapped totals of the history. */
    ghost predicate Valid()
      reads this
    {
      ProcessingNow() == Wrapped(Fold(history))
    }

    constructor ()
      ensures Valid() && history == []
      ensures counters == NOTHING_COUNTED
    {
      counters := NOTHING_COUNTED;
      framesProcessed := 0;
      sequences := SequenceStats(None, None, 0, 0, 0);
      warnings := Warnings(0, 0, 0, 0);
      temperature := Range(None, None, 0);
      supply := Range(None, None, 0);
      history := [];
    }

    method RecordInput()
      modifies this`counters
      ensures counters == old(counters).(inputs := Inc64(old(counters).inputs))
    {
      counters := counters.(inputs := Inc64(counters.inputs));
    }

    method RecordAccepted()
      modifies this`counters
      ensures counters == old(counters).(accepted := Inc64(old(counters).accepted))
    {
      counters := counters.(accepted := Inc64(counters.accepted));
    }

    method RecordParseRejected(error: ParseError)
      modifies this`counters
      ensures counters == CountParseError(CountRejected(old(counters)), error)
    {
      counters := counters.(rejected := Inc64(counters.rejected));
      var e := counters.parseErrors;
      match error {
        case InvalidFrameSize => e := e.(invalidFrameSize := Inc64(e.invalidFrameSize));
        case InvalidMagic => e := e.(invalidMagic := Inc64(e.invalidMagic));
        case UnsupportedVersion => e := e.(unsupportedVersion := Inc64(e.unsupportedVersion));
        case UnsupportedMessageType => e := e.(unsupportedMessageType := Inc64(e.unsupportedMessageType));
        case InvalidPayloadSize => e := e.(invalidPayloadSize := Inc64(e.invalidPayloadSize));
        case ChecksumMismatch => e := e.(checksumMismatch := Inc64(e.checksumMismatch));
        case NoError =>
      }
      counters := counters.(parseErrors := e);
    }

    method RecordQueueClosed()
      modifies this`counters
      ensures counters == old(counters).(rejected := Inc64(old(counters).rejected),
                                         queueClosed := Inc64(old(counters).queueClosed))
    {
      counters := counters.(rejected := Inc64(counters.rejected));
      counters := counters.(queueClosed := Inc64(counters.queueClosed));
    }

    /** The signed sum must not overflow, which for the source is undefined behaviour. */
    method RecordProcessed(frame: TelemetryFrame)
      requires Valid()
      requires -TWO_TO_THE_63 <= temperature.sum + TemperatureOf(frame) < TWO_TO_THE_63
      modifies this
      ensures Valid() && history == old(history) + [frame]
      ensures counters == old(counters)
    {
      hide Fold, RecordSequence, RecordFlags, RecordReading, WrapSequences, WrapWarnings, WrapSum, Wrap64, Inc64;
      hide SequenceOf, TemperatureOf, SupplyOf;
      ghost var before := Fold(history);
      WrappedFields(before);
      FoldWellFormed(history);
      WrappedRecord(before, frame);
      FoldSnoc(history, frame);
      framesProcessed := Inc64(framesProcessed);
      RecordSequenceOf(SequenceOf(frame));
      RecordFlagsOf(frame.payload.flags);
      RecordTemperatureOf(TemperatureOf(frame));
      RecordSupplyOf(SupplyOf(frame));
      history := history + [frame];
    }

    method RecordSequenceOf(sequence: u32)
      requires sequences.first.Some? <==> sequences.last.Some?
      requires WrapSequences(sequences) == sequences
      modifies this`sequences
      ensures sequences == WrapSequences(RecordSequence(old(sequences), sequence))
    {
      if sequences.first.None? {
        sequences := sequences.(first := Some(sequence), last := Some(sequence));
      } else if sequence == sequences.last.value {
        sequences := sequences.(duplicates := Inc64(sequences.duplicates));
      } else if sequence > sequences.last.value {
        var distance := sequence - sequences.last.value;
        if distance > 1 {
          sequences := sequences.(missing := Wrap64(sequences.missing + (distance - 1)));
        }
        sequences := sequences.(last := Some(sequence));
      } else {
        sequences := sequences.(outOfOrder := Inc64(sequences.outOfOrder));
      }
    }

    method RecordFlagsOf(flags: bv16)
      requires WrapWarnings(warnings) == warnings
      modifies this`warnings
      ensures warnings == WrapWarnings(RecordFlags(old(warnings), flags))
    {
      hide HasFlag, Wrap64, Inc64;
      IncWraps(warnings.sensor);
      IncWraps(warnings.voltage);
      IncWraps(warnings.communication);
      IncWraps(warnings.watchdog);
      if HasFlag(flags, SENSOR_WARNING) {
        warnings := warnings.(sensor := Inc64(warnings.sensor));
      }
      if HasFlag(flags, VOLTAGE_WARNING) {
        warnings := warnings.(voltage := Inc64(warnings.voltage));
      }
      if HasFlag(flags, COMMUNICATION_WARNING) {
        warnings := warnings.(communication := Inc64(warnings.communication));
      }
      if HasFlag(flags, WATCHDOG_EVENT) {
        warnings := warnings.(watchdog := Inc64(warnings.watchdog));
      }
    }

    method RecordTemperatureOf(value: i32)
      requires temperature.minimum.Some? <==> temperature.maximum.Some?
      requires -TWO_TO_THE_63 <= temperature.sum + value < TWO_TO_THE_63
      modifies this`temperature
      ensures temperature == RecordReading(old(temperature), value)
    {
      if temperature.minimum.None? {
        temperature := temperature.(minimum := Some(value), maximum := Some(value));
      } else {
        temperature := temperature.(minimum := Some(Min(temperature.minimum.value, value)),
                                    maximum := Some(Max(temperature.maximum.value, value)));
      }
      temperature := temperature.(sum := temperature.sum + value);
    }

    method RecordSupplyOf(value: u16)
      requires supply.minimum.Some? <==> supply.maximum.Some?
      modifies this`supply
      ensures supply == WrapSum(RecordReading(old(supply), value))
    {
      if supply.minimum.None? {
        supply := supply.(minimum := Some(value), maximum := Some(value));
      } else {
        supply := supply.(minimum := Some(Min(supply.minimum.value, value)),
                          maximum := Some(Max(supply.maximum.value, value)));
      }
      supply := supply.(sum := Wrap64(supply.sum + value));
    }

    /** Reports the counters and the wrapped totals of everything recorded. */
    method TakeSnapshot() returns (s: Snapshot)
      requires Valid()
      ensures s.counters == counters && s.processing == Wrapped(Fold(history))
    {
      s := Snapshot(counters, ProcessingNow());
    }
  }
}
