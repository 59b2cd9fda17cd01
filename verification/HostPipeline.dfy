/**
 The host pipeline as two interleaved threads over a bounded blocking queue: the main thread ingests, closes, joins and
 judges; the consumer pops, parses again and records. Every step is one shared access of the source.
 */
module HostPipeline {
  import opened Words
  import opened Protocol
  import opened Metrics
  import opened Ingestion

  datatype Config = Config(inputs: seq<Bytes>, capacity: nat)

  datatype ConsumerResult = ConsumerResult(success: bool, framesConsumed: nat)

  /** What the main thread decides after the join. */
  datatype Outcome = Outcome(success: bool, result: ConsumerResult, snapshot: Snapshot)

  datatype IngestorPc =
    | AtTop                        // of the loop over the inputs
    | Parsing                      // the input has been counted
    | Rejecting(error: ParseError) // before the total of rejections
    | Classifying(error: ParseError) // before the counter of the error
    | Pushing                      // a valid frame; blocks while the queue is full
    | Accepting                    // pushed but not yet counted
    | QueueClosed                  // the push was refused
    | QueueClosedCounted
    | Closing
    | Joining                      // blocks until the consumer has returned
    | Done(outcome: Outcome)

  datatype ConsumerPc =
    | Popping                      // blocks while the queue is open and empty
    | Holding(bytes: Bytes)
    | Returned(result: ConsumerResult)

  datatype State = State(
    ingestor: IngestorPc,
    taken: nat,                    // inputs completely handled
    succeeded: bool,
    queue: seq<Bytes>,
    closed: bool,
    consumer: ConsumerPc,
    consumed: nat,
    counters: Counters,
    processing: Processing)

  const INITIAL: State := State(AtTop, 0, true, [], false, Popping, 0, NOTHING_COUNTED, NOTHING_PROCESSED)

  /** The next step of the main thread, if it is not blocked or finished. */
  function IngestorNext(c: Config, s: State): Option<State> {
    match s.ingestor
    case AtTop =>
      if s.taken < |c.inputs| then Some(s.(ingestor := Parsing, counters := CountInput(s.counters)))
      else Some(s.(ingestor := Closing))
    case Parsing =>
      if s.taken >= |c.inputs| then None
      else if IsValid(c.inputs[s.taken]) then Some(s.(ingestor := Pushing))
      else Some(s.(ingestor := Rejecting(ErrorOf(c.inputs[s.taken]))))
    case Rejecting(e) => Some(s.(ingestor := Classifying(e), counters := CountRejected(s.counters)))
    case Classifying(e) =>
      Some(s.(ingestor := AtTop, taken := s.taken + 1, counters := CountParseError(s.counters, e)))
    case Pushing =>
      if s.taken >= |c.inputs| then None
      else if s.closed then Some(s.(ingestor := QueueClosed))
      else if |s.queue| < c.capacity then Some(s.(ingestor := Accepting, queue := s.queue + [c.inputs[s.taken]]))
      else None
    case Accepting => Some(s.(ingestor := AtTop, taken := s.taken + 1, counters := CountAccepted(s.counters)))
    case QueueClosed => Some(s.(ingestor := QueueClosedCounted, counters := CountRejected(s.counters)))
    case QueueClosedCounted =>
      Some(s.(ingestor := Closing, succeeded := false, counters := CountQueueClosed(s.counters)))
    case Closing => Some(s.(ingestor := Joining, closed := true))
    case Joining =>
      if !s.consumer.Returned? then None
      else
        var result := s.consumer.result;
        var failed := !s.succeeded || !result.success || result.framesConsumed != s.counters.accepted;
        Some(s.(ingestor := Done(Outcome(!failed, result, Snapshot(s.counters, s.processing)))))
    case Done(_) => None
  }

  /** The next step of the consumer thread, if it is not blocked or finished. */
  function ConsumerNext(s: State): Option<State> {
    match s.consumer
    case Popping =>
      if |s.queue| > 0 then Some(s.(consumer := Holding(s.queue[0]), queue := s.queue[1..]))
      else if s.closed then Some(s.(consumer := Returned(ConsumerResult(true, s.consumed))))
      else None
    case Holding(bytes) =>
      if |bytes| != FRAME_SIZE || !IsValid(bytes) then
        Some(s.(consumer := Returned(ConsumerResult(false, s.consumed))))
      else
        Some(s.(consumer := Popping, consumed := Inc64(s.consumed),
                processing := Wrapped(Record(s.processing, FrameOf(bytes)))))
    case Returned(_) => None
  }

  ghost predicate Step(c: Config, s: State, t: State) {
    IngestorNext(c, s) == Some(t) || ConsumerNext(s) == Some(t)
  }

  predicate Blocked(c: Config, s: State) {
    IngestorNext(c, s).None? && ConsumerNext(s).None?
  }

  /** An interleaving from the initial state. */
  ghost predicate IsRun(c: Config, run: seq<State>) {
    && |run| > 0 && run[0] == INITIAL
    && forall i :: 0 <= i < |run| - 1 ==> Step(c, run[i], run[i + 1])
  }

  // ----- The invariant

  function Held(s: State): seq<Bytes> {
    if s.consumer.Holding? then [s.consumer.bytes] else []
  }

  /** The frames pushed so far; one of them may not have been counted yet. */
  function Pushed(c: Config, s: State): seq<Bytes>
    requires s.taken <= |c.inputs| && (s.ingestor.Accepting? ==> s.taken < |c.inputs|)
  {
    ValidInputs(c.inputs[..s.taken]) + if s.ingestor.Accepting? then [c.inputs[s.taken]] else []
  }

  /** The input being handled, between its being counted and its being finished. */
  predicate InFlight(pc: IngestorPc) {
    pc.Parsing? || pc.Rejecting? || pc.Pushing? || pc.Accepting? || pc.Classifying?
  }

  ghost predicate IngestorInv(c: Config, s: State) {
    && s.taken <= |c.inputs| && s.succeeded
    && (InFlight(s.ingestor) ==> s.taken < |c.inputs|)
    && (s.ingestor.Pushing? || s.ingestor.Accepting? ==> IsValid(c.inputs[s.taken]))
    && (s.ingestor.Rejecting? || s.ingestor.Classifying? ==>
          !IsValid(c.inputs[s.taken]) && s.ingestor.error == ErrorOf(c.inputs[s.taken]))
    && !s.ingestor.QueueClosed? && !s.ingestor.QueueClosedCounted?
    && (s.ingestor.Closing? || s.ingestor.Joining? || s.ingestor.Done? ==> s.taken == |c.inputs|)
    && (s.closed <==> s.ingestor.Joining? || s.ingestor.Done?)
  }

  function CountersExpected(c: Config, s: State): Counters
    requires s.taken <= |c.inputs|
  {
    var base := CountersAfter(c.inputs[..s.taken]);
    if s.ingestor.Classifying? then CountRejected(CountInput(base))
    else if InFlight(s.ingestor) then CountInput(base)
    else base
  }

  /** Pushed frames are, in order, the processed ones, the one held and the queued ones. */
  ghost predicate QueueInv(c: Config, s: State, processed: seq<Bytes>)
    requires IngestorInv(c, s)
  {
    && |s.queue| <= c.capacity
    && Pushed(c, s) == processed + Held(s) + s.queue
    && (forall b :: b in processed ==> IsValid(b))
    && s.consumed == |processed| % TWO_TO_THE_64
    && s.processing == ProcessingAfter(processed)
    && (s.consumer.Returned? ==> s.closed && s.queue == [] && s.consumer.result == ConsumerResult(true, s.consumed))
  }

  function Processed(c: Config, s: State): seq<Bytes>
    requires s.taken <= |c.inputs| && (s.ingestor.Accepting? ==> s.taken < |c.inputs|)
  {
    var pushed := Pushed(c, s);
    var waiting := |Held(s)| + |s.queue|;
    if waiting <= |pushed| then pushed[..|pushed| - waiting] else []
  }

  ghost predicate Inv(c: Config, s: State) {
    && IngestorInv(c, s)
    && s.counters == CountersExpected(c, s)
    && QueueInv(c, s, Processed(c, s))
    && (s.ingestor.Done? ==>
          && s.consumer.Returned?
          && s.ingestor.outcome == Outcome(true, s.consumer.result, Snapshot(s.counters, s.processing)))
  }
}
