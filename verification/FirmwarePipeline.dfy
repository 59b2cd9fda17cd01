/**
 The firmware as three interleaved threads: the producer, the transmitter and `main`, over the kernel's bounded message
 queue with an in-band end marker. The queue blocks for ever, so its calls never report an error here.
 */
module FirmwarePipeline {
  import opened Words
  import opened Protocol
  import opened HexFormatter
  import opened Report

  datatype QueueItem = FrameItem(bytes: seq<byte>) | EndOfStream

  datatype FirmwareMetricsSnapshot = FirmwareMetricsSnapshot(
    samplesGenerated: nat,
    framesSerialized: nat,
    framesEnqueued: nat,
    framesTransmitted: nat,
    queuePushFailures: nat,
    queuePopFailures: nat,
    endMarkersSent: nat,
    endMarkersReceived: nat)

  const NO_METRICS: FirmwareMetricsSnapshot := FirmwareMetricsSnapshot(0, 0, 0, 0, 0, 0, 0, 0)

  /** `%04u`: at least four digits. */
  function Pad4(n: nat): string {
    var d := Decimal(n);
    if |d| == 1 then "000" + d else if |d| == 2 then "00" + d else if |d| == 3 then "0" + d else d
  }

  function FrameLine(index: nat, bytes: seq<byte>): string {
    "TLFRAME " + Pad4(index) + " " + Hex(bytes)
  }

  function Totals(m: FirmwareMetricsSnapshot): string {
    "produced=" + Decimal(m.framesEnqueued) + " transmitted=" + Decimal(m.framesTransmitted) +
    " queue_errors=" + Decimal((m.queuePushFailures + m.queuePopFailures) % TWO_TO_THE_64)
  }

  const DONE_LINE: string := "TLFIRMWARE DONE"

  predicate MetricsAreValid(m: FirmwareMetricsSnapshot, expected: nat) {
    && m.samplesGenerated == expected && m.framesSerialized == expected
    && m.framesEnqueued == expected && m.framesTransmitted == expected
    && m.queuePushFailures == 0 && m.queuePopFailures == 0
    && m.endMarkersSent == 1 && m.endMarkersReceived == 1
  }

  /** What `main` prints at the end. */
  function Trailer(succeeded: bool, m: FirmwareMetricsSnapshot): seq<string> {
    if succeeded then ["TLFIRMWARE SUMMARY " + Totals(m), DONE_LINE] else ["TLFIRMWARE ERROR " + Totals(m)]
  }

  /** `frames` is what the sensor will produce, `expected` the compiled-in sample count. */
  datatype Config = Config(frames: seq<TelemetryFrame>, capacity: nat, expected: nat)

  datatype ProducerPc =
    | AtTop                          // of the loop over the samples
    | Generated(frame: TelemetryFrame)
    | Pushing(bytes: seq<byte>)      // blocks while the queue is full
    | Counting                       // pushed but not yet counted
    | PushingEnd
    | CountingEnd
    | ProducerFinished(succeeded: bool) // the semaphore has been given

  datatype TransmitterPc =
    | Popping                        // blocks while the queue is empty
    | Holding(item: QueueItem)
    | Printed                        // printed but not yet counted
    | TransmitterFinished(succeeded: bool)

  datatype MainPc =
    | AwaitingProducer
    | AwaitingTransmitter
    | Judging
    | Exited(succeeded: bool, trailer: seq<string>)

  datatype State = State(
    producer: ProducerPc,
    transmitter: TransmitterPc,
    main: MainPc,
    nextIndex: nat,                  // of the sensor
    queue: seq<QueueItem>,
    transmissionIndex: nat,
    output: seq<string>,
    metrics: FirmwareMetricsSnapshot)

  const INITIAL: State := State(AtTop, Popping, AwaitingProducer, 0, [], 0, [], NO_METRICS)

  function ProducerNext(c: Config, s: State): Option<State> {
    var m := s.metrics;
    match s.producer
    case AtTop =>
      if s.nextIndex < |c.frames| then
        Some(s.(producer := Generated(c.frames[s.nextIndex]), nextIndex := s.nextIndex + 1,
                metrics := m.(samplesGenerated := Inc64(m.samplesGenerated))))
      else Some(s.(producer := PushingEnd))
    case Generated(frame) =>
      Some(s.(producer := Pushing(Serialize(frame)), metrics := m.(framesSerialized := Inc64(m.framesSerialized))))
    case Pushing(bytes) =>
      if |s.queue| < c.capacity then Some(s.(producer := Counting, queue := s.queue + [FrameItem(bytes)])) else None
    case Counting => Some(s.(producer := AtTop, metrics := m.(framesEnqueued := Inc64(m.framesEnqueued))))
    case PushingEnd =>
      if |s.queue| < c.capacity then Some(s.(producer := CountingEnd, queue := s.queue + [EndOfStream])) else None
    case CountingEnd =>
      Some(s.(producer := ProducerFinished(true), metrics := m.(endMarkersSent := Inc64(m.endMarkersSent))))
    case ProducerFinished(_) => None
  }

  function TransmitterNext(s: State): Option<State> {
    var m := s.metrics;
    match s.transmitter
    case Popping =>
      if |s.queue| > 0 then Some(s.(transmitter := Holding(s.queue[0]), queue := s.queue[1..])) else None
    case Holding(item) =>
      if item.EndOfStream? then
        Some(s.(transmitter := TransmitterFinished(true),
                metrics := m.(endMarkersReceived := Inc64(m.endMarkersReceived))))
      else
        var index := Wrap32(s.transmissionIndex + 1);
        Some(s.(transmitter := Printed, transmissionIndex := index,
                output := s.output + [FrameLine(index, item.bytes)]))
    case Printed => Some(s.(transmitter := Popping, metrics := m.(framesTransmitted := Inc64(m.framesTransmitted))))
    case TransmitterFinished(_) => None
  }

  function MainNext(c: Config, s: State): Option<State> {
    match s.main
    case AwaitingProducer =>
      if s.producer.ProducerFinished? then Some(s.(main := AwaitingTransmitter)) else None
    case AwaitingTransmitter =>
      if s.transmitter.TransmitterFinished? then Some(s.(main := Judging)) else None
    case Judging =>
      var succeeded := s.producer == ProducerFinished(true) && s.transmitter == TransmitterFinished(true) &&
                       MetricsAreValid(s.metrics, c.expected) && |s.queue| == 0;
      Some(s.(main := Exited(succeeded, Trailer(succeeded, s.metrics))))
    case Exited(_, _) => None
  }

  ghost predicate Step(c: Config, s: State, t: State) {
    ProducerNext(c, s) == Some(t) || TransmitterNext(s) == Some(t) || MainNext(c, s) == Some(t)
  }

  predicate Blocked(c: Config, s: State) {
    ProducerNext(c, s).None? && TransmitterNext(s).None? && MainNext(c, s).None?
  }

  ghost predicate IsRun(c: Config, run: seq<State>) {
    && |run| > 0 && run[0] == INITIAL
    && forall i :: 0 <= i < |run| - 1 ==> Step(c, run[i], run[i + 1])
  }

  // ----- The invariant

  function ItemOf(frame: TelemetryFrame): QueueItem {
    FrameItem(Serialize(frame))
  }

  function Items(frames: seq<TelemetryFrame>): (items: seq<QueueItem>)
    ensures |items| == |frames|
    ensures forall k :: 0 <= k < |frames| ==> items[k] == ItemOf(frames[k])
  {
    seq(|frames|, k requires 0 <= k < |frames| => ItemOf(frames[k]))
  }

  /** Record `k + 1` of the output carries the 32-bit index `k + 1` and the frame. */
  function Lines(frames: seq<TelemetryFrame>): (lines: seq<string>)
    ensures |lines| == |frames|
    ensures forall k :: 0 <= k < |frames| ==>
              lines[k] == FrameLine(Wrap32(k + 1), Serialize(frames[k]))
  {
    seq(|frames|, k requires 0 <= k < |frames| =>
          FrameLine(Wrap32(k + 1), Serialize(frames[k])))
  }

  /** How many frames the producer has pushed. */
  function PushedCount(s: State): int {
    if s.producer.Generated? || s.producer.Pushing? then s.nextIndex - 1 else s.nextIndex
  }

  predicate EndPushed(s: State) {
    s.producer.CountingEnd? || s.producer.ProducerFinished?
  }

  function End(present: bool): seq<QueueItem> {
    if present then [EndOfStream] else []
  }

  function Held(s: State): seq<QueueItem> {
    if s.transmitter.Holding? then [s.transmitter.item] else []
  }

  ghost predicate ProducerInv(c: Config, s: State) {
    && s.nextIndex <= |c.frames|
    && (s.producer.Generated? ==> s.nextIndex > 0 && s.producer.frame == c.frames[s.nextIndex - 1])
    && (s.producer.Pushing? ==> s.nextIndex > 0 && s.producer.bytes == Serialize(c.frames[s.nextIndex - 1]))
    && (s.producer.Counting? ==> s.nextIndex > 0)
    && (s.producer.PushingEnd? || EndPushed(s) ==> s.nextIndex == |c.frames|)
    && (s.producer.ProducerFinished? ==> s.producer.succeeded)
  }

  /** Frames pushed are, in order, those printed, the one held and those queued; the end marker comes last, once. */
  ghost predicate StreamInv(c: Config, s: State)
    requires ProducerInv(c, s)
  {
    && |s.queue| <= c.capacity
    && |s.output| <= PushedCount(s)
    && s.output == Lines(c.frames[..|s.output|])
    && s.transmissionIndex == Wrap32(|s.output|)
    && Items(c.frames[|s.output|..PushedCount(s)]) + End(EndPushed(s))
       == Held(s) + s.queue + End(s.transmitter.TransmitterFinished?)
    && (s.transmitter.Printed? ==> |s.output| > 0)
    && (s.transmitter.TransmitterFinished? ==> s.transmitter.succeeded && s.queue == [])
  }

  function Lag(n: int, lagging: bool): nat {
    (if lagging then n - 1 else n) % TWO_TO_THE_64
  }

  /** Each counter is its count, except that one step lies between an action and its being counted. */
  function MetricsExpected(s: State): FirmwareMetricsSnapshot {
    FirmwareMetricsSnapshot(
      Lag(s.nextIndex, false),
      Lag(s.nextIndex, s.producer.Generated?),
      Lag(PushedCount(s), s.producer.Counting?),
      Lag(|s.output|, s.transmitter.Printed?),
      0,
      0,
      if s.producer.ProducerFinished? then 1 else 0,
      if s.transmitter.TransmitterFinished? then 1 else 0)
  }

  ghost predicate MainInv(c: Config, s: State) {
    && (!s.main.AwaitingProducer? ==> s.producer.ProducerFinished?)
    && (s.main.Judging? || s.main.Exited? ==> s.transmitter.TransmitterFinished?)
    && (s.main.Exited? ==>
          && s.main.succeeded == MetricsAreValid(s.metrics, c.expected)
          && s.main.trailer == Trailer(s.main.succeeded, s.metrics))
  }

  ghost predicate Inv(c: Config, s: State) {
    && ProducerInv(c, s) && StreamInv(c, s) && MainInv(c, s)
    && s.metrics == MetricsExpected(s)
  }
}
