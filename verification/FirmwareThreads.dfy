/**
 The firmware's classes as the source writes them. Each thread sees the kernel's message queue from its own end: the other
 thread's progress appears as interference at the blocking calls.
 */
module FirmwareThreads {
  import opened Words
  import opened Protocol
  import opened SensorModel
  import opened HexFormatter
  import opened FirmwarePipeline
  import opened FirmwareInvariant
  import opened FirmwareOutcome

  class FirmwareMetrics {
    var values: FirmwareMetricsSnapshot

    constructor ()
      ensures values == NO_METRICS
    {
      values := NO_METRICS;
    }

    method RecordSampleGenerated()
      modifies this
      ensures values == old(values).(samplesGenerated := Inc64(old(values).samplesGenerated))
    {
      values := values.(samplesGenerated := Inc64(values.samplesGenerated));
    }

    method RecordFrameSerialized()
      modifies this
      ensures values == old(values).(framesSerialized := Inc64(old(values).framesSerialized))
    {
      values := values.(framesSerialized := Inc64(values.framesSerialized));
    }

    method RecordFrameEnqueued()
      modifies this
      ensures values == old(values).(framesEnqueued := Inc64(old(values).framesEnqueued))
    {
      values := values.(framesEnqueued := Inc64(values.framesEnqueued));
    }

    method RecordFrameTransmitted()
      modifies this
      ensures values == old(values).(framesTransmitted := Inc64(old(values).framesTransmitted))
    {
      values := values.(framesTransmitted := Inc64(values.framesTransmitted));
    }

    method RecordQueuePushFailure()
      modifies this
      ensures values == old(values).(queuePushFailures := Inc64(old(values).queuePushFailures))
    {
      values := values.(queuePushFailures := Inc64(values.queuePushFailures));
    }

    method RecordQueuePopFailure()
      modifies this
      ensures values == old(values).(queuePopFailures := Inc64(old(values).queuePopFailures))
    {
      values := values.(queuePopFailures := Inc64(values.queuePopFailures));
    }

    method RecordEndMarkerSent()
      modifies this
      ensures values == old(values).(endMarkersSent := Inc64(old(values).endMarkersSent))
    {
      values := values.(endMarkersSent := Inc64(values.endMarkersSent));
    }

    method RecordEndMarkerReceived()
      modifies this
      ensures values == old(values).(endMarkersReceived := Inc64(old(values).endMarkersReceived))
    {
      values := values.(endMarkersReceived := Inc64(values.endMarkersReceived));
    }
  }

  /** What `printk` has written, line by line. */
  class Console {
    var lines: seq<string>

    constructor ()
      ensures lines == []
    {
      lines := [];
    }

    method Print(line: string)
      modifies this
      ensures lines == old(lines) + [line]
    {
      lines := lines + [line];
    }
  }

  // ----- The queue

  /**
   The kernel's message queue: what it buffers, what has left it, and what other threads will still put. A waiting call
   comes back with a nonzero code only when some other context may interrupt the wait.
   */
  class MessageQueue {
    const capacity: nat
    const interruptible: bool
    var items: seq<QueueItem>
    var taken: seq<QueueItem>
    var upcoming: seq<QueueItem>

    ghost predicate Valid()
      reads this
    {
      capacity >= 1 && |items| <= capacity
    }

    /** Everything ever put, in order. */
    function Stream(): seq<QueueItem>
      reads this
    {
      taken + items
    }

    /** Everything that a reader will still be given, in order. */
    function Deliveries(): seq<QueueItem>
      reads this
    {
      items + upcoming
    }

    constructor (capacity: nat, interruptible: bool, leftovers: seq<QueueItem>, upcoming: seq<QueueItem>)
      requires |leftovers| <= capacity && capacity >= 1
      ensures Valid() && items == leftovers && taken == [] && this.upcoming == upcoming
      ensures this.capacity == capacity && this.interruptible == interruptible
    {
      this.capacity, this.interruptible := capacity, interruptible;
      this.items, this.taken, this.upcoming := leftovers, [], upcoming;
    }

    method Purge()
      requires Valid()
      modifies this
      ensures Valid() && items == [] && taken == [] && upcoming == old(upcoming)
    {
      items, taken := [], [];
    }

    /** Waits while the queue is full; meanwhile the reader may take any number of items. */
    method Put(item: QueueItem) returns (code: int)
      requires Valid()
      modifies this`items, this`taken
      ensures Valid() && (!interruptible ==> code == 0)
      ensures Stream() == if code == 0 then old(Stream()) + [item] else old(Stream())
    {
      var interruption: int := *;
      code := if interruptible then interruption else 0;
      assert |items| - |items| < capacity;
      var left: nat :| left <= |items| && (code == 0 ==> |items| - left < capacity);
      taken, items := taken + items[..left], items[left..];
      if code == 0 {
        items := items + [item];
      }
    }

    /**
     Waits while the queue is empty, until a writer puts what it has next. Without an interruption and with nothing to come
     it would wait for ever.
     */
    method Get() returns (code: int, item: QueueItem)
      requires Valid() && (interruptible || Deliveries() != [])
      modifies this
      ensures Valid() && (!interruptible ==> code == 0)
      ensures code == 0 ==> old(Deliveries()) == [item] + Deliveries()
      ensures code != 0 ==> Deliveries() == old(Deliveries())
    {
      var interruption: int := *;
      code := if !interruptible then 0 else if interruption == 0 && Deliveries() == [] then -1 else interruption;
      item := EndOfStream;
      if code == 0 {
        if |items| == 0 {
          items, upcoming := [upcoming[0]], upcoming[1..];
        }
        item := items[0];
        taken, items := taken + [item], items[1..];
      }
    }
  }

  class TelemetryQueue {
    const kernel: MessageQueue

    /** The static queue starts empty, whatever it held. */
    constructor (kernel: MessageQueue)
      requires kernel.Valid()
      modifies kernel
      ensures this.kernel == kernel && kernel.Valid()
      ensures kernel.Stream() == [] && kernel.items == [] && kernel.upcoming == old(kernel.upcoming)
    {
      this.kernel := kernel;
      new;
      kernel.Purge();
    }

    method PushFrame(frame: seq<byte>) returns (ok: bool)
      requires kernel.Valid()
      modifies kernel`items, kernel`taken
      ensures kernel.Valid() && (!kernel.interruptible ==> ok)
      ensures kernel.Stream() == if ok then old(kernel.Stream()) + [FrameItem(frame)] else old(kernel.Stream())
    {
      var code := kernel.Put(FrameItem(frame));
      return code == 0;
    }

    method PushEndOfStream() returns (ok: bool)
      requires kernel.Valid()
      modifies kernel`items, kernel`taken
      ensures kernel.Valid() && (!kernel.interruptible ==> ok)
      ensures kernel.Stream() == if ok then old(kernel.Stream()) + [EndOfStream] else old(kernel.Stream())
    {
      var code := kernel.Put(EndOfStream);
      return code == 0;
    }

    method Pop() returns (ok: bool, item: QueueItem)
      requires kernel.Valid() && (kernel.interruptible || kernel.Deliveries() != [])
      modifies kernel
      ensures kernel.Valid() && (!kernel.interruptible ==> ok)
      ensures ok ==> old(kernel.Deliveries()) == [item] + kernel.Deliveries()
      ensures !ok ==> kernel.Deliveries() == old(kernel.Deliveries())
    {
      var code;
      code, item := kernel.Get();
      ok := code == 0;
    }

    predicate Empty()
      reads kernel
    {
      |kernel.items| == 0
    }
  }

  // ----- The producer

  function Plus64(counter: nat, n: nat): nat {
    (counter + n) % TWO_TO_THE_64
  }

  /** The counters once `sent` of `n` frames and a marker have been put, and then nothing was left or a put failed. */
  function ProducerCounts(m: FirmwareMetricsSnapshot, n: nat, sent: nat): FirmwareMetricsSnapshot
    requires sent <= n + 1
  {
    var made := if sent < n then sent + 1 else n;
    m.(samplesGenerated := Plus64(m.samplesGenerated, made),
       framesSerialized := Plus64(m.framesSerialized, made),
       framesEnqueued := Plus64(m.framesEnqueued, if sent < n then sent else n),
       queuePushFailures := Plus64(m.queuePushFailures, if sent <= n then 1 else 0),
       endMarkersSent := Plus64(m.endMarkersSent, if sent <= n then 0 else 1))
  }

  ghost predicate CountersInRange(m: FirmwareMetricsSnapshot) {
    && m.samplesGenerated < TWO_TO_THE_64 && m.framesSerialized < TWO_TO_THE_64
    && m.framesEnqueued < TWO_TO_THE_64 && m.framesTransmitted < TWO_TO_THE_64
    && m.queuePushFailures < TWO_TO_THE_64 && m.queuePopFailures < TWO_TO_THE_64
    && m.endMarkersSent < TWO_TO_THE_64 && m.endMarkersReceived < TWO_TO_THE_64
  }

  /** The counters with `done` frames put. */
  function Counted(m: FirmwareMetricsSnapshot, done: nat): FirmwareMetricsSnapshot {
    m.(samplesGenerated := Plus64(m.samplesGenerated, done),
       framesSerialized := Plus64(m.framesSerialized, done),
       framesEnqueued := Plus64(m.framesEnqueued, done))
  }

  function GeneratedOne(m: FirmwareMetricsSnapshot): FirmwareMetricsSnapshot {
    m.(samplesGenerated := Inc64(m.samplesGenerated))
  }

  /** One frame serialised, and then put or not. */
  function FrameCounted(m: FirmwareMetricsSnapshot, ok: bool): FirmwareMetricsSnapshot {
    if ok then m.(framesSerialized := Inc64(m.framesSerialized), framesEnqueued := Inc64(m.framesEnqueued))
    else m.(framesSerialized := Inc64(m.framesSerialized), queuePushFailures := Inc64(m.queuePushFailures))
  }

  function EndCounted(m: FirmwareMetricsSnapshot, ok: bool): FirmwareMetricsSnapshot {
    if ok then m.(endMarkersSent := Inc64(m.endMarkersSent)) else m.(queuePushFailures := Inc64(m.queuePushFailures))
  }

  lemma Plus64Laws(counter: nat, n: nat)
    ensures counter < TWO_TO_THE_64 ==> Plus64(counter, 0) == counter && Inc64(counter) == Plus64(counter, 1)
    ensures Inc64(Plus64(counter, n)) == Plus64(counter, n + 1)
  {
  }

  lemma CountedSteps(m: FirmwareMetricsSnapshot, n: nat, done: nat)
    requires CountersInRange(m) && done <= n
    ensures Counted(m, 0) == m
    ensures FrameCounted(GeneratedOne(Counted(m, done)), true) == Counted(m, done + 1)
    ensures done < n ==> FrameCounted(GeneratedOne(Counted(m, done)), false) == ProducerCounts(m, n, done)
    ensures EndCounted(Counted(m, n), true) == ProducerCounts(m, n, n + 1)
    ensures EndCounted(Counted(m, n), false) == ProducerCounts(m, n, n)
  {
    hide Plus64, Inc64;
    Plus64Laws(m.samplesGenerated, done);
    Plus64Laws(m.framesSerialized, done);
    Plus64Laws(m.framesEnqueued, done);
    Plus64Laws(m.queuePushFailures, 0);
    Plus64Laws(m.endMarkersSent, 0);
  }

  /** All that a producer puts: the frames in order, then the marker. */
  function StreamOf(frames: seq<TelemetryFrame>): (items: seq<QueueItem>)
    ensures |items| == |frames| + 1
  {
    Items(frames) + [EndOfStream]
  }

  /** Putting one more item after `start`. */
  lemma StreamExtends(start: seq<QueueItem>, frames: seq<TelemetryFrame>, done: nat)
    ensures done < |frames| ==>
              start + StreamOf(frames)[..done] + [FrameItem(Serialize(frames[done]))] == start + StreamOf(frames)[..done + 1]
    ensures start + StreamOf(frames)[..|frames|] + [EndOfStream] == start + StreamOf(frames)[..|frames| + 1]
  {
    hide Serialize;
    var items := StreamOf(frames);
    if done < |frames| {
      assert items[..done + 1] == items[..done] + [items[done]];
      assert items[done] == ItemOf(frames[done]);
    }
    assert items[..|frames| + 1] == items[..|frames|] + [items[|frames|]];
  }

  class TelemetryProducer {
    const sensorModel: DeterministicSensorModel
    const queue: TelemetryQueue
    const metrics: FirmwareMetrics

    constructor (sensorModel: DeterministicSensorModel, queue: TelemetryQueue, metrics: FirmwareMetrics)
      ensures this.sensorModel == sensorModel && this.queue == queue && this.metrics == metrics
    {
      this.sensorModel, this.queue, this.metrics := sensorModel, queue, metrics;
    }

    /**
     Puts the remaining frames in order and then the marker, up to the first put that fails; it succeeds exactly when none
     does.
     */
    method Run() returns (succeeded: bool)
      requires sensorModel.Valid() && queue.kernel.Valid() && CountersInRange(metrics.values)
      modifies sensorModel, queue.kernel`items, queue.kernel`taken, metrics
      ensures sensorModel.Valid() && queue.kernel.Valid() && (!queue.kernel.interruptible ==> succeeded)
      ensures var frames := FramesFrom(sensorModel.samples)[old(sensorModel.nextIndex)..];
              var sent := |queue.kernel.Stream()| - |old(queue.kernel.Stream())|;
              && 0 <= sent <= |frames| + 1 && (succeeded <==> sent == |frames| + 1)
              && queue.kernel.Stream() == old(queue.kernel.Stream()) + StreamOf(frames)[..sent]
              && metrics.values == ProducerCounts(old(metrics.values), |frames|, sent)
              && sensorModel.Remaining() == if sent < |frames| then |frames| - sent - 1 else 0
    {
      hide Serialize, FrameAt, FramesFrom, IsFrameOf, ProducerCounts, Counted, FrameCounted, EndCounted, StreamOf;
      hide CountersInRange;
      ghost var before := metrics.values;
      ghost var start := queue.kernel.Stream();
      ghost var frames := FramesFrom(sensorModel.samples)[sensorModel.nextIndex..];
      ghost var done := 0;
      CountedSteps(before, |frames|, 0);
      assert start == start + StreamOf(frames)[..0];
      while sensorModel.HasNext()
        invariant sensorModel.Valid() && queue.kernel.Valid()
        invariant done + sensorModel.Remaining() == |frames| && sensorModel.nextIndex == old(sensorModel.nextIndex) + done
        invariant queue.kernel.Stream() == start + StreamOf(frames)[..done]
        invariant metrics.values == Counted(before, done)
        decreases sensorModel.Remaining()
      {
        CountedSteps(before, |frames|, done);
        StreamExtends(start, frames, done);
        var frame := sensorModel.Next();
        assert frame == frames[done];
        metrics.RecordSampleGenerated();
        var ok := EnqueueFrame(frame);
        if !ok {
          return false;
        }
        done := done + 1;
      }
      CountedSteps(before, |frames|, done);
      StreamExtends(start, frames, done);
      succeeded := EnqueueEnd();
    }

    /** The later part of the loop: serialise, put and count. */
    method EnqueueFrame(frame: TelemetryFrame) returns (ok: bool)
      requires queue.kernel.Valid()
      modifies queue.kernel`items, queue.kernel`taken, metrics
      ensures queue.kernel.Valid() && (!queue.kernel.interruptible ==> ok)
      ensures metrics.values == FrameCounted(old(metrics.values), ok)
      ensures queue.kernel.Stream() == if ok then old(queue.kernel.Stream()) + [FrameItem(Serialize(frame))]
                                       else old(queue.kernel.Stream())
    {
      hide Serialize, Inc64;
      var serialized := SerializeFrame(frame);
      metrics.RecordFrameSerialized();
      ok := queue.PushFrame(serialized[..]);
      if !ok {
        metrics.RecordQueuePushFailure();
        return;
      }
      metrics.RecordFrameEnqueued();
    }

    /** What follows the loop. */
    method EnqueueEnd() returns (ok: bool)
      requires queue.kernel.Valid()
      modifies queue.kernel`items, queue.kernel`taken, metrics
      ensures queue.kernel.Valid() && (!queue.kernel.interruptible ==> ok)
      ensures metrics.values == EndCounted(old(metrics.values), ok)
      ensures queue.kernel.Stream() == if ok then old(queue.kernel.Stream()) + [EndOfStream] else old(queue.kernel.Stream())
    {
      hide Inc64;
      ok := queue.PushEndOfStream();
      if !ok {
        metrics.RecordQueuePushFailure();
        return;
      }
      metrics.RecordEndMarkerSent();
    }
  }

  // ----- The transmitter

  /** How many frames come before the first end marker. */
  function FramesBeforeEnd(items: seq<QueueItem>): (n: nat)
    ensures n <= |items|
    ensures forall i :: 0 <= i < n ==> items[i].FrameItem?
    ensures n < |items| ==> items[n].EndOfStream?
  {
    if |items| == 0 || items[0].EndOfStream? then 0 else 1 + FramesBeforeEnd(items[1..])
  }

  /** The record of each frame item: its position, counted from one in 32 bits, and its bytes. */
  function Records(items: seq<QueueItem>): (lines: seq<string>)
    requires forall i :: 0 <= i < |items| ==> items[i].FrameItem?
    ensures |lines| == |items|
    ensures forall k :: 0 <= k < |items| ==> lines[k] == FrameLine(Wrap32(k + 1), items[k].bytes)
  {
    seq(|items|, k requires 0 <= k < |items| => FrameLine(Wrap32(k + 1), items[k].bytes))
  }

  /** The counters once `printed` frames have been printed and then the marker was taken, or a get failed. */
  function TransmitterCounts(m: FirmwareMetricsSnapshot, printed: nat, succeeded: bool): FirmwareMetricsSnapshot {
    m.(framesTransmitted := Plus64(m.framesTransmitted, printed),
       queuePopFailures := Plus64(m.queuePopFailures, if succeeded then 0 else 1),
       endMarkersReceived := Plus64(m.endMarkersReceived, if succeeded then 1 else 0))
  }

  lemma TransmitterSteps(m: FirmwareMetricsSnapshot, printed: nat)
    requires CountersInRange(m)
    ensures m.(framesTransmitted := Plus64(m.framesTransmitted, 0)) == m
    ensures var c := m.(framesTransmitted := Plus64(m.framesTransmitted, printed));
            && c.(framesTransmitted := Inc64(c.framesTransmitted))
               == m.(framesTransmitted := Plus64(m.framesTransmitted, printed + 1))
            && c.(queuePopFailures := Inc64(c.queuePopFailures)) == TransmitterCounts(m, printed, false)
            && c.(endMarkersReceived := Inc64(c.endMarkersReceived)) == TransmitterCounts(m, printed, true)
  {
    hide Plus64, Inc64;
    Plus64Laws(m.framesTransmitted, printed);
    Plus64Laws(m.queuePopFailures, 0);
    Plus64Laws(m.endMarkersReceived, 0);
  }

  /** The records of the frames before the first marker. */
  function RecordsBeforeEnd(items: seq<QueueItem>): (lines: seq<string>)
    ensures |lines| == FramesBeforeEnd(items)
  {
    Records(items[..FramesBeforeEnd(items)])
  }

  ghost predicate FrameSized(items: seq<QueueItem>) {
    forall item :: item in items && item.FrameItem? ==> |item.bytes| == FRAME_SIZE
  }

  /** What the next item taken is, and what remains. */
  lemma NextTaken(items: seq<QueueItem>, done: nat, item: QueueItem, rest: seq<QueueItem>)
    requires FrameSized(items) && done <= FramesBeforeEnd(items) && items[done..] == [item] + rest
    ensures done < |items| && item == items[done] && rest == items[done + 1..]
    ensures item.EndOfStream? ==> done == FramesBeforeEnd(items)
    ensures item.FrameItem? ==> done < FramesBeforeEnd(items) && |item.bytes| == FRAME_SIZE
  {
    hide FramesBeforeEnd;
    assert item == items[done] && items[done..][1..] == rest;
    assert item in items;
  }

  /** Extending what is printed by one record. */
  lemma RecordsExtend(items: seq<QueueItem>, done: nat)
    requires done < FramesBeforeEnd(items)
    ensures items[done].FrameItem?
    ensures RecordsBeforeEnd(items)[..done + 1]
         == RecordsBeforeEnd(items)[..done] + [FrameLine(Wrap32(done + 1), items[done].bytes)]
  {
    hide FramesBeforeEnd, FrameLine, Wrap32;
    var records := RecordsBeforeEnd(items);
    assert records[..done + 1] == records[..done] + [records[done]];
  }

  class TelemetryTransmitter {
    const queue: TelemetryQueue
    const metrics: FirmwareMetrics
    const console: Console

    constructor (queue: TelemetryQueue, metrics: FirmwareMetrics, console: Console)
      ensures this.queue == queue && this.metrics == metrics && this.console == console
    {
      this.queue, this.metrics, this.console := queue, metrics, console;
    }

    /** Formats into a local buffer, then prints. */
    method PrintRecord(index: nat, frame: seq<byte>)
      requires |frame| == FRAME_SIZE
      modifies console
      ensures console.lines == old(console.lines) + [FrameLine(index, frame)]
    {
      hide Hex, Pad4;
      var bytes := new byte[FRAME_SIZE](i requires 0 <= i < |frame| => frame[i]);
      assert bytes[..] == frame;
      var hexadecimal := Format(bytes);
      console.Print("TLFRAME " + Pad4(index) + " " + hexadecimal[..HEXADECIMAL_FRAME_LENGTH]);
    }

    /**
     Prints the frames it is given, in order, up to the marker or the first get that fails; it succeeds exactly when it
     has taken the marker, and takes nothing after it. Without a marker to come it waits until a get fails.
     */
    method Run() returns (succeeded: bool)
      requires queue.kernel.Valid() && CountersInRange(metrics.values) && FrameSized(queue.kernel.Deliveries())
      requires queue.kernel.interruptible || FramesBeforeEnd(queue.kernel.Deliveries()) < |queue.kernel.Deliveries()|
      modifies queue.kernel, metrics, console
      ensures queue.kernel.Valid() && (!queue.kernel.interruptible ==> succeeded)
      ensures var items := old(queue.kernel.Deliveries());
              var n := FramesBeforeEnd(items);
              var printed := |console.lines| - |old(console.lines)|;
              && 0 <= printed <= n && (succeeded ==> printed == n < |items|)
              && console.lines == old(console.lines) + RecordsBeforeEnd(items)[..printed]
              && queue.kernel.Deliveries() == items[if succeeded then n + 1 else printed..]
              && metrics.values == TransmitterCounts(old(metrics.values), printed, succeeded)
    {
      hide FrameLine, Inc64, Plus64, Wrap32, TransmitterCounts, FramesBeforeEnd, RecordsBeforeEnd, FrameSized;
      ghost var before := metrics.values;
      ghost var items := queue.kernel.Deliveries();
      ghost var done := 0;
      TransmitterSteps(before, 0);
      var transmissionIndex := Wrap32(0);
      while true
        invariant queue.kernel.Valid() && done <= FramesBeforeEnd(items)
        invariant transmissionIndex == Wrap32(done)
        invariant queue.kernel.Deliveries() == items[done..]
        invariant console.lines == old(console.lines) + RecordsBeforeEnd(items)[..done]
        invariant metrics.values == before.(framesTransmitted := Plus64(before.framesTransmitted, done))
        decreases |items| - done
      {
        TransmitterSteps(before, done);
        var ok, item := queue.Pop();
        if !ok {
          metrics.RecordQueuePopFailure();
          return false;
        }
        NextTaken(items, done, item, queue.kernel.Deliveries());
        if item.EndOfStream? {
          metrics.RecordEndMarkerReceived();
          return true;
        }
        NextIndex(done);
        transmissionIndex := Wrap32(transmissionIndex + 1);
        PrintRecord(transmissionIndex, item.bytes);
        RecordsExtend(items, done);
        metrics.RecordFrameTransmitted();
        done := done + 1;
      }
    }
  }

  // ----- The main function

  /** Of what a producer puts, up to a failing put or all of it, the transmitter would print every frame. */
  lemma StreamOfProducer(frames: seq<TelemetryFrame>, sent: nat)
    requires sent <= |frames| + 1
    ensures var items := StreamOf(frames)[..sent];
            var n := if sent < |frames| then sent else |frames|;
            && FrameSized(items)
            && FramesBeforeEnd(items) == n && (n < |items| <==> sent == |frames| + 1)
            && RecordsBeforeEnd(items) == Lines(frames)[..n]
  {
    hide FrameLine, Wrap32, FramesBeforeEnd, Serialize, Items;
    var items := StreamOf(frames)[..sent];
    var n := if sent < |frames| then sent else |frames|;
    assert forall k :: 0 <= k < n ==> items[k] == Items(frames)[k] == ItemOf(frames[k]);
    FirstMarker(items, n);
  }

  lemma FirstMarker(items: seq<QueueItem>, n: nat)
    requires n <= |items| && (forall i :: 0 <= i < n ==> items[i].FrameItem?)
    requires n < |items| ==> items[n].EndOfStream?
    ensures FramesBeforeEnd(items) == n
  {
    hide FramesBeforeEnd;
  }

  /** The counters of a run in which `sent` items were put, `printed` were printed and the transmitter ended as it did. */
  function CountsOf(n: nat, sent: nat, printed: nat, transmitted: bool): FirmwareMetricsSnapshot
    requires sent <= n + 1
  {
    TransmitterCounts(ProducerCounts(NO_METRICS, n, sent), printed, transmitted)
  }

  lemma CountsOfRun(n: nat, sent: nat, printed: nat, transmitted: bool)
    requires sent <= n + 1 && printed <= n < TWO_TO_THE_64
    ensures CountersInRange(ProducerCounts(NO_METRICS, n, sent))
    ensures var m := CountsOf(n, sent, printed, transmitted);
            && m == (if sent == n + 1 then FirmwareMetricsSnapshot(n, n, n, printed, 0, 0, 1, 0)
                     else if sent == n then FirmwareMetricsSnapshot(n, n, n, printed, 1, 0, 0, 0)
                     else FirmwareMetricsSnapshot(sent + 1, sent + 1, sent, printed, 1, 0, 0, 0)).
                    (queuePopFailures := if transmitted then 0 else 1, endMarkersReceived := if transmitted then 1 else 0)
            && (sent == n + 1 && transmitted && printed == n ==> m == FinalMetrics(n))
  {
  }

  predicate NoFailures(m: FirmwareMetricsSnapshot) {
    m.queuePushFailures == 0 && m.queuePopFailures == 0
  }

  /**
   What a run writes when queue calls may fail: the records of the first `printed` frames and the verdict. The verdict is
   success exactly when no call failed and the count is the expected one, and then nothing is missing.
   */
  ghost predicate IsRunOutput(
      c: Config, written: seq<string>, succeeded: bool, printed: nat, m: FirmwareMetricsSnapshot) {
    && printed <= |c.frames| && m.framesTransmitted == printed
    && written == Lines(c.frames)[..printed] + Trailer(succeeded, m)
    && (succeeded <==> NoFailures(m) && |c.frames| == c.expected)
    && (NoFailures(m) ==> written == CompleteOutput(c))
  }

  /** The verdict drawn from the counters of such a run. */
  lemma VerdictOfRun(c: Config, sent: nat, printed: nat, transmitted: bool)
    requires |c.frames| < TWO_TO_THE_64 && sent <= |c.frames| + 1 && printed <= |c.frames|
    requires transmitted ==> sent == |c.frames| + 1 && printed == |c.frames|
    ensures var m := CountsOf(|c.frames|, sent, printed, transmitted);
            var succeeded := transmitted && MetricsAreValid(m, c.expected);
            && IsRunOutput(c, Lines(c.frames)[..printed] + Trailer(succeeded, m), succeeded, printed, m)
            && (transmitted ==> NoFailures(m))
  {
    hide CountsOf, FinalMetrics, Lines, Trailer;
    CountsOfRun(|c.frames|, sent, printed, transmitted);
    VerdictOfCount(|c.frames|, c.expected);
  }

  /**
   The firmware with its threads run one after the other. When no queue call fails it writes what every interleaving
   writes; when calls may fail it never reports a success that is not one.
   */
  method RunFirmware(
      samples: seq<TelemetrySample>, capacity: nat, expected: nat, interruptible: bool, leftovers: seq<QueueItem>,
      console: Console)
    returns (exitCode: int, ghost printed: nat, ghost final: FirmwareMetricsSnapshot)
    requires capacity >= 1 && |leftovers| <= capacity && |samples| < TWO_TO_THE_64
    modifies console
    ensures exitCode == 0 || exitCode == 1
    ensures |old(console.lines)| <= |console.lines| && old(console.lines) == console.lines[..|old(console.lines)|]
    ensures var c := Config(FramesFrom(samples), capacity, expected);
            IsRunOutput(c, console.lines[|old(console.lines)|..], exitCode == 0, printed, final)
    ensures !interruptible ==> NoFailures(final)
  {
    hide FrameAt, StreamOf, Lines, Trailer, MetricsAreValid, FramesBeforeEnd, RecordsBeforeEnd, FrameSized;
    hide TransmitterCounts, ProducerCounts, FinalMetrics, CompleteOutput, IsRunOutput, NoFailures, CountersInRange;
    hide FramesFrom, Items;
    ghost var c := Config(FramesFrom(samples), capacity, expected);
    ghost var before := console.lines;
    var metrics := new FirmwareMetrics();
    var produced, stream := ProduceAll(samples, capacity, interruptible, leftovers, metrics);
    StreamOfProducer(c.frames, |stream|);
    CountsOfRun(|c.frames|, |stream|, 0, false);
    var transmitted, queue := TransmitAll(stream, capacity, interruptible, metrics, console);
    printed := |console.lines| - |before|;
    final := metrics.values;
    exitCode := Conclude(produced, transmitted, metrics, queue, expected, console);
    VerdictOfRun(c, |stream|, printed, transmitted);
    ValidMetricsAreThese(final, expected);
    AfterPrefix(before, Lines(c.frames), FramesBeforeEnd(stream), printed, Trailer(exitCode == 0, final));
  }

  /** Cutting off what was there before. */
  lemma AfterPrefix(before: seq<string>, lines: seq<string>, n: nat, printed: nat, trailer: seq<string>)
    requires printed <= n <= |lines|
    ensures var all := before + lines[..n][..printed] + trailer;
            all[..|before|] == before && all[|before|..] == lines[..printed] + trailer
  {
    assert lines[..n][..printed] == lines[..printed];
  }

  /** The producer's half of the run: everything it puts, whatever the queue held before. */
  method ProduceAll(
      samples: seq<TelemetrySample>, capacity: nat, interruptible: bool, leftovers: seq<QueueItem>,
      metrics: FirmwareMetrics)
    returns (produced: bool, stream: seq<QueueItem>)
    requires capacity >= 1 && |leftovers| <= capacity && metrics.values == NO_METRICS
    modifies metrics
    ensures |stream| <= |samples| + 1 && (produced <==> |stream| == |samples| + 1) && (!interruptible ==> produced)
    ensures stream == StreamOf(FramesFrom(samples))[..|stream|]
    ensures metrics.values == ProducerCounts(NO_METRICS, |samples|, |stream|)
  {
    hide StreamOf, ProducerCounts;
    ghost var frames := FramesFrom(samples);
    assert frames[0..] == frames;
    var sensorModel := new DeterministicSensorModel(samples);
    var kernel := new MessageQueue(capacity, interruptible, leftovers, []);
    var queue := new TelemetryQueue(kernel);
    var producer := new TelemetryProducer(sensorModel, queue, metrics);
    produced := producer.Run();
    stream := kernel.Stream();
  }

  /** The transmitter's half of the run. */
  method TransmitAll(
      stream: seq<QueueItem>, capacity: nat, interruptible: bool, metrics: FirmwareMetrics, console: Console)
    returns (transmitted: bool, queue: TelemetryQueue)
    requires capacity >= 1 && CountersInRange(metrics.values) && FrameSized(stream)
    requires interruptible || FramesBeforeEnd(stream) < |stream|
    modifies metrics, console
    ensures !interruptible ==> transmitted
    ensures var n := FramesBeforeEnd(stream);
            var printed := |console.lines| - |old(console.lines)|;
            && 0 <= printed <= n && (transmitted ==> printed == n < |stream|)
            && console.lines == old(console.lines) + RecordsBeforeEnd(stream)[..printed]
            && metrics.values == TransmitterCounts(old(metrics.values), printed, transmitted)
            && (transmitted && n + 1 == |stream| ==> queue.kernel.items == [])
  {
    hide FramesBeforeEnd, RecordsBeforeEnd, FrameSized, TransmitterCounts;
    var kernel := new MessageQueue(capacity, interruptible, [], stream);
    queue := new TelemetryQueue(kernel);
    var transmitter := new TelemetryTransmitter(queue, metrics, console);
    assert kernel.Deliveries() == stream;
    transmitted := transmitter.Run();
  }

  /** What `main` prints and returns once both threads have finished. */
  method Conclude(
      produced: bool, transmitted: bool, metrics: FirmwareMetrics, queue: TelemetryQueue, expected: nat, console: Console)
    returns (exitCode: int)
    modifies console
    ensures var succeeded := produced && transmitted && queue.kernel.items == [] &&
                             metrics.values == FirmwareMetricsSnapshot(expected, expected, expected, expected, 0, 0, 1, 1);
            && exitCode == (if succeeded then 0 else 1)
            && console.lines == old(console.lines) + Trailer(succeeded, metrics.values)
  {
    hide MetricsAreValid, Totals;
    ValidMetricsAreThese(metrics.values, expected);
    var succeeded := produced && transmitted && MetricsAreValid(metrics.values, expected) && queue.Empty();
    var totals := Totals(metrics.values);
    if !succeeded {
      console.Print("TLFIRMWARE ERROR " + totals);
    } else {
      console.Print("TLFIRMWARE SUMMARY " + totals);
      console.Print(DONE_LINE);
    }
    return if succeeded then 0 else 1;
  }
}
