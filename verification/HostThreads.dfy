/**
 The two threads of the host as the source writes them. Each sees the bounded blocking queue from its own end: the other
 thread's progress appears as interference at the blocking calls.
 */
module HostThreads {
  import opened Words
  import opened Protocol
  import opened Metrics
  import opened Ingestion
  import opened HostPipeline
  import opened Statistics
  import opened HostInvariant
  import opened HostOutcome

  // ----- The ingesting end

  /** The queue as its producer sees it: what it has pushed, of which the consumer has taken some. */
  class IngestEnd {
    const capacity: nat
    var pushed: seq<Bytes>
    var popped: nat
    var closed: bool

    ghost predicate Valid()
      reads this
    {
      capacity >= 1 && popped <= |pushed| <= popped + capacity
    }

    constructor (capacity: nat)
      requires capacity >= 1
      ensures Valid() && pushed == [] && !closed && this.capacity == capacity
    {
      this.capacity := capacity;
      pushed, popped, closed := [], 0, false;
    }

    /** Blocks while the queue is full: on return the consumer may have taken any number of the earlier items. */
    method Push(item: Bytes) returns (ok: bool)
      requires Valid()
      modifies this
      ensures Valid() && closed == old(closed) && ok == !closed
      ensures pushed == if ok then old(pushed) + [item] else old(pushed)
    {
      ok := !closed;
      if ok {
        assert |pushed| - |pushed| < capacity;
        var taken: nat :| popped <= taken <= |pushed| && |pushed| - taken < capacity;
        popped := taken;
        pushed := pushed + [item];
      }
    }

    method Close()
      requires Valid()
      modifies this
      ensures Valid() && closed && pushed == old(pushed)
    {
      closed := true;
    }
  }

  datatype IngestStatus = Accepted | ParseRejected | QueueRefused

  datatype IngestResult = IngestResult(status: IngestStatus, parseError: ParseError)

  /** One input whose frame a closed queue refused. */
  function RefusedOnce(c: Counters): Counters {
    c.(inputs := Inc64(c.inputs), rejected := Inc64(c.rejected), queueClosed := Inc64(c.queueClosed))
  }

  class FrameIngestor {
    const buffer: IngestEnd
    const metrics: TelemetryMetrics

    constructor (buffer: IngestEnd, metrics: TelemetryMetrics)
      ensures this.buffer == buffer && this.metrics == metrics
    {
      this.buffer, this.metrics := buffer, metrics;
    }

    method Ingest(bytes: Bytes) returns (result: IngestResult)
      requires buffer.Valid()
      modifies buffer, metrics`counters
      ensures buffer.Valid() && buffer.closed == old(buffer.closed)
      ensures result.parseError == ErrorOf(bytes)
      ensures !IsValid(bytes) ==>
                && result.status == ParseRejected && buffer.pushed == old(buffer.pushed)
                && metrics.counters == CountOne(old(metrics.counters), bytes)
      ensures IsValid(bytes) && !buffer.closed ==>
                && result.status == Accepted && buffer.pushed == old(buffer.pushed) + [bytes]
                && metrics.counters == CountOne(old(metrics.counters), bytes)
      ensures IsValid(bytes) && buffer.closed ==>
                && result.status == QueueRefused && buffer.pushed == old(buffer.pushed)
                && metrics.counters == RefusedOnce(old(metrics.counters))
    {
      hide Deserialize;
      metrics.RecordInput();
      var parsed := ParseFrame(bytes);
      if parsed.frame.None? {
        metrics.RecordParseRejected(parsed.error);
        return IngestResult(ParseRejected, parsed.error);
      }

      var queuedBytes: Bytes := [];
      for i := 0 to |bytes|
        invariant queuedBytes == bytes[..i]
      {
        queuedBytes := queuedBytes + [bytes[i]];
      }

      assert bytes[..|bytes|] == bytes;
      var pushed := buffer.Push(queuedBytes);
      if !pushed {
        metrics.RecordQueueClosed();
        return IngestResult(QueueRefused, NoError);
      }
      metrics.RecordAccepted();
      return IngestResult(Accepted, NoError);
    }
  }

  /** How many inputs come before the first that parses. */
  function InvalidPrefixLength(inputs: seq<Bytes>): (n: nat)
    ensures n <= |inputs|
    ensures forall i :: 0 <= i < n ==> !IsValid(inputs[i])
    ensures n < |inputs| ==> IsValid(inputs[n])
  {
    if |inputs| == 0 || IsValid(inputs[0]) then 0 else 1 + InvalidPrefixLength(inputs[1..])
  }

  /**
   The loop of the main thread and the close that follows it. An open queue takes every valid input; a closed one ends the
   loop, without success, at the first.
   */
  method IngestAll(inputs: seq<Bytes>, ingestor: FrameIngestor) returns (succeeded: bool)
    requires ingestor.buffer.Valid() && ingestor.buffer.pushed == []
    requires ingestor.metrics.counters == NOTHING_COUNTED
    modifies ingestor.buffer, ingestor.metrics`counters
    ensures ingestor.buffer.closed
    ensures !old(ingestor.buffer.closed) ==>
              && succeeded && ingestor.buffer.pushed == ValidInputs(inputs)
              && ingestor.metrics.counters == CountersAfter(inputs)
    ensures old(ingestor.buffer.closed) ==>
              var n := InvalidPrefixLength(inputs);
              && (succeeded <==> n == |inputs|) && ingestor.buffer.pushed == []
              && ingestor.metrics.counters ==
                 if succeeded then CountersAfter(inputs) else RefusedOnce(CountersAfter(inputs[..n]))
  {
    hide IsValid, ErrorOf, CountOne, InvalidPrefixLength, RefusedOnce;
    succeeded := true;
    ghost var n := InvalidPrefixLength(inputs);
    for i := 0 to |inputs|
      invariant succeeded && ingestor.buffer.Valid() && ingestor.buffer.closed == old(ingestor.buffer.closed)
      invariant ingestor.buffer.closed ==> i <= n
      invariant ingestor.buffer.pushed == if ingestor.buffer.closed then [] else ValidInputs(inputs[..i])
      invariant ingestor.metrics.counters == CountersAfter(inputs[..i])
    {
      assert inputs[..i + 1] == inputs[..i] + [inputs[i]];
      ValidSnoc(inputs[..i], inputs[i]);
      CountersSnoc(inputs[..i], inputs[i]);
      var result := ingestor.Ingest(inputs[i]);
      if result.status == QueueRefused {
        succeeded := false;
        break;
      }
    }
    assert succeeded ==> inputs[..|inputs|] == inputs;
    ingestor.buffer.Close();
  }

  // ----- The consuming end

  /** The queue as its consumer sees it: what waits, and what the producer will still push before it closes. */
  class ConsumeEnd {
    var queue: seq<Bytes>
    var upcoming: seq<Bytes>
    var closed: bool

    ghost predicate Valid()
      reads this
    {
      closed ==> upcoming == []
    }

    /** Everything that pops will deliver. */
    function Deliveries(): seq<Bytes>
      reads this
    {
      queue + upcoming
    }

    constructor (queue: seq<Bytes>, upcoming: seq<Bytes>)
      ensures Valid() && Deliveries() == queue + upcoming
    {
      this.queue, this.upcoming, this.closed := queue, upcoming, false;
    }

    /** Blocks while the queue is open and empty: the producer then pushes, or closes when it has nothing left. */
    method Pop() returns (item: Option<Bytes>)
      requires Valid()
      modifies this
      ensures Valid()
      ensures item.None? <==> old(Deliveries()) == []
      ensures item.None? ==> Deliveries() == [] && closed
      ensures item.Some? ==> old(Deliveries()) == [item.value] + Deliveries()
    {
      if |queue| == 0 && !closed {
        if |upcoming| > 0 {
          queue, upcoming := [upcoming[0]], upcoming[1..];
        } else {
          closed := true;
        }
      }
      if |queue| == 0 {
        return None;
      }
      item := Some(queue[0]);
      queue := queue[1..];
    }
  }

  class TelemetryProcessor {
    const metrics: TelemetryMetrics

    constructor (metrics: TelemetryMetrics)
      ensures this.metrics == metrics
    {
      this.metrics := metrics;
    }

    method Process(frame: TelemetryFrame)
      requires metrics.Valid()
      requires -TWO_TO_THE_63 <= metrics.temperature.sum + TemperatureOf(frame) < TWO_TO_THE_63
      modifies metrics
      ensures metrics.Valid() && metrics.history == old(metrics.history) + [frame]
      ensures metrics.counters == old(metrics.counters)
    {
      metrics.RecordProcessed(frame);
    }
  }

  /** How many items come before the first that does not parse. */
  function ValidPrefixLength(items: seq<Bytes>): (n: nat)
    ensures n <= |items|
    ensures forall i :: 0 <= i < n ==> IsValid(items[i])
    ensures n < |items| ==> !IsValid(items[n])
  {
    if |items| == 0 || !IsValid(items[0]) then 0 else 1 + ValidPrefixLength(items[1..])
  }

  /** The consumer copies an item of frame size into an array and parses it again. */
  method ParseQueued(queued: Bytes) returns (frame: Option<TelemetryFrame>)
    ensures frame == Deserialize(queued).frame
  {
    if |queued| != FRAME_SIZE {
      return None;
    }
    var bytes := new byte[FRAME_SIZE];
    for index := 0 to FRAME_SIZE
      invariant bytes[..index] == queued[..index]
    {
      bytes[index] := queued[index];
    }
    assert bytes[..] == queued;
    var parsed := ParseFrame(bytes[..]);
    return parsed.frame;
  }

  /** The frames recorded before the first item that does not parse. */
  function PrefixFrames(items: seq<Bytes>): (frames: seq<TelemetryFrame>)
    ensures |frames| == ValidPrefixLength(items)
    ensures forall k :: 0 <= k < |frames| ==> IsValid(items[k]) && frames[k] == FrameOf(items[k])
    ensures |frames| < |items| ==> !IsValid(items[|frames|])
  {
    FramesOf(items[..ValidPrefixLength(items)])
  }

  lemma NextDelivery(items: seq<Bytes>, done: nat, item: Bytes, rest: seq<Bytes>)
    requires done <= |items| && items[done..] == [item] + rest
    ensures done < |items| && item == items[done] && rest == items[done + 1..]
  {
    assert items[done..][1..] == rest;
  }

  /**
   The consumer: it succeeds exactly when everything delivered parses, and has recorded in order what came before the
   first item that does not. No recorded sum may overflow, which for the source is undefined behaviour.
   */
  method ConsumeQueuedFrames(buffer: ConsumeEnd, processor: TelemetryProcessor) returns (result: ConsumerResult)
    requires buffer.Valid() && processor.metrics.Valid()
    requires SumsFit(processor.metrics.history, PrefixFrames(buffer.Deliveries()))
    modifies buffer, processor.metrics
    ensures processor.metrics.Valid() && processor.metrics.counters == old(processor.metrics.counters)
    ensures var items := old(buffer.Deliveries());
            var frames := PrefixFrames(items);
            && result == ConsumerResult(|frames| == |items|, |frames| % TWO_TO_THE_64)
            && processor.metrics.history == old(processor.metrics.history) + frames
  {
    hide Deserialize, ErrorOf, IsValid, FrameOf, TemperatureOf, Fold, PrefixFrames, ValidPrefixLength, SumsFit, Inc64;
    ghost var items := buffer.Deliveries();
    ghost var frames := PrefixFrames(items);
    ghost var done := 0;
    var metrics := processor.metrics;
    ghost var before := metrics.history;
    var consumed: nat := 0;
    assert items[0..] == items && before + frames[..0] == before;
    while true
      invariant buffer.Valid() && metrics.Valid() && metrics.counters == old(metrics.counters)
      invariant done <= |frames| && consumed == done % TWO_TO_THE_64
      invariant buffer.Deliveries() == items[done..]
      invariant metrics.history == before + frames[..done]
      decreases |items| - done
    {
      var queued := buffer.Pop();
      if queued.None? {
        return ConsumerResult(true, consumed);
      }
      NextDelivery(items, done, queued.value, buffer.Deliveries());
      var parsed := ParseQueued(queued.value);
      ParseDecides(queued.value);
      if parsed.None? {
        return ConsumerResult(false, consumed);
      }
      NextSumFits(before, frames, done);
      processor.Process(parsed.value);
      consumed := Inc64(consumed);
      IncModulo(done);
      done := done + 1;
    }
  }

  lemma ParseDecides(b: Bytes)
    ensures IsValid(b) <==> Deserialize(b).frame.Some?
    ensures IsValid(b) ==> FrameOf(b) == Deserialize(b).frame.value
  {
  }

  /** What the ingestor pushes never makes the consumer leave early. */
  lemma ValidDeliveriesSucceed(items: seq<Bytes>)
    requires forall b :: b in items ==> IsValid(b)
    ensures ValidPrefixLength(items) == |items|
  {
    hide IsValid;
  }

  /** Of what the ingestor pushes, every frame is recorded. */
  lemma AllFramesRecorded(inputs: seq<Bytes>)
    ensures PrefixFrames(ValidInputs(inputs)) == FramesOf(ValidInputs(inputs))
  {
    hide IsValid, FrameOf, ValidInputs;
    ValidDeliveriesSucceed(ValidInputs(inputs));
  }

  /** The main function, its two threads run one after the other: the outcome that every interleaving reaches. */
  method RunPipeline(inputs: seq<Bytes>, capacity: nat) returns (outcome: Outcome)
    requires capacity >= 1 && SumsFit([], FramesOf(ValidInputs(inputs)))
    ensures outcome == SequentialOutcome(inputs)
  {
    hide IsValid, ErrorOf, FrameOf, Fold, Wrapped, CountersAfter;
    var buffer := new IngestEnd(capacity);
    var metrics := new TelemetryMetrics();
    var ingestor := new FrameIngestor(buffer, metrics);
    var processor := new TelemetryProcessor(metrics);

    var succeeded := IngestAll(inputs, ingestor);

    var rest := new ConsumeEnd([], buffer.pushed);
    assert rest.Deliveries() == ValidInputs(inputs);
    AllFramesRecorded(inputs);
    var result := ConsumeQueuedFrames(rest, processor);

    assert metrics.history == FramesOf(ValidInputs(inputs));
    AcceptedCount(inputs);
    var snapshot := metrics.TakeSnapshot();
    var failed := !succeeded || !result.success || result.framesConsumed != snapshot.counters.accepted;
    outcome := Outcome(!failed, result, snapshot);
  }
}
