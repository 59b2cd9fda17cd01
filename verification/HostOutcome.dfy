/** No interleaving of the host pipeline deadlocks, all take the same number of steps, and all end in the same outcome. */
module HostOutcome {
  import opened Words
  import opened Protocol
  import opened Metrics
  import opened Ingestion
  import opened HostPipeline
  import opened HostInvariant

  // ----- Progress

  /** From every state the invariant allows, some thread can move until the main thread is done. */
  lemma Progress(c: Config, s: State)
    requires c.capacity >= 1 && Inv(c, s)
    ensures Blocked(c, s) <==> s.ingestor.Done?
  {
    hide IsValid, ErrorOf, ProcessingAfter, ValidInputs, CountersAfter, FrameOf, Record, Wrapped;
  }

  function IngestorWork(c: Config, s: State): int {
    4 * (|c.inputs| - s.taken) +
    match s.ingestor
    case AtTop => 3
    case Parsing => 2
    case Rejecting(_) => 1
    case Pushing => 1
    case Classifying(_) => 0
    case Accepting => 0
    case QueueClosed => 4
    case QueueClosedCounted => 3
    case Closing => 2
    case Joining => 1
    case Done(_) => 0
  }

  ghost function ConsumerWork(c: Config, s: State): int
    requires Inv(c, s)
  {
    var left := |ValidInputs(c.inputs)| - |Processed(c, s)|;
    match s.consumer
    case Popping => 2 * left + 1
    case Holding(_) => 2 * left
    case Returned(_) => 0
  }

  /** The steps still to be taken. */
  ghost function Work(c: Config, s: State): int
    requires Inv(c, s)
  {
    IngestorWork(c, s) + ConsumerWork(c, s)
  }

  function TotalWork(c: Config): nat {
    4 * |c.inputs| + 2 * |ValidInputs(c.inputs)| + 4
  }

  lemma PushedIsBounded(c: Config, s: State)
    requires Inv(c, s)
    ensures |Pushed(c, s)| <= |ValidInputs(c.inputs)|
  {
    hide IsValid, ErrorOf, ProcessingAfter, CountersAfter, ValidInputs, CountersExpected, QueueInv;
    if s.ingestor.Accepting? {
      Finishing(c, s.taken);
      ValidPrefix(c.inputs, s.taken + 1);
    } else {
      ValidPrefix(c.inputs, s.taken);
    }
  }

  lemma WorkNonnegative(c: Config, s: State)
    requires Inv(c, s)
    ensures Work(c, s) >= 0
    ensures Work(c, s) == 0 <==> s.ingestor.Done?
  {
    hide IsValid, ErrorOf, ProcessingAfter, CountersAfter, ValidInputs, CountersExpected;
    PushedIsBounded(c, s);
  }

  lemma ProcessedCount(c: Config, s: State)
    requires Inv(c, s)
    ensures |Processed(c, s)| == |Pushed(c, s)| - |Held(s)| - |s.queue|
  {
    hide IsValid, ErrorOf, ProcessingAfter, CountersAfter, ValidInputs, CountersExpected;
  }

  lemma IngestorFrame(c: Config, s: State, t: State)
    requires Inv(c, s) && IngestorNext(c, s) == Some(t) && IngestorInv(c, t)
    ensures t.consumer == s.consumer
    ensures |Pushed(c, t)| - |t.queue| == |Pushed(c, s)| - |s.queue|
  {
    hide IsValid, ErrorOf, ProcessingAfter, CountersAfter, ValidInputs, CountersExpected, QueueInv;
    hide CountInput, CountRejected, CountAccepted, CountParseError;
    if s.ingestor.Accepting? || s.ingestor.Classifying? {
      Finishing(c, s.taken);
      assert Pushed(c, t) == Pushed(c, s);
    } else if s.ingestor.Pushing? {
      assert Pushed(c, t) == Pushed(c, s) + [c.inputs[s.taken]];
    }
  }

  lemma IngestorOwnWork(c: Config, s: State, t: State)
    requires IngestorInv(c, s) && IngestorNext(c, s) == Some(t)
    ensures IngestorWork(c, t) == IngestorWork(c, s) - 1
  {
    hide IsValid, ErrorOf, CountInput, CountRejected, CountAccepted, CountParseError, CountQueueClosed;
  }

  lemma IngestorStepWork(c: Config, s: State, t: State)
    requires Inv(c, s) && IngestorNext(c, s) == Some(t) && Inv(c, t)
    ensures Work(c, t) == Work(c, s) - 1
  {
    hide IsValid, IngestorNext, CountersExpected, QueueInv, IngestorInv, Processed, Pushed, IngestorWork, ValidInputs;
    ProcessedCount(c, s);
    ProcessedCount(c, t);
    IngestorFrame(c, s, t);
    IngestorOwnWork(c, s, t);
  }

  lemma AllProcessed(c: Config, s: State)
    requires Inv(c, s) && s.closed && s.queue == [] && s.consumer.Popping?
    ensures |Processed(c, s)| == |ValidInputs(c.inputs)|
  {
    ProcessedCount(c, s);
    hide IsValid, ErrorOf, ProcessingAfter, CountersAfter, ValidInputs, CountersExpected, Processed, QueueInv;
    assert c.inputs[..s.taken] == c.inputs;
  }

  lemma ConsumerFrame(c: Config, s: State, t: State)
    requires IngestorInv(c, s) && ConsumerNext(s) == Some(t)
    ensures t.ingestor == s.ingestor && t.taken == s.taken && t.closed == s.closed
    ensures Pushed(c, t) == Pushed(c, s) && IngestorWork(c, t) == IngestorWork(c, s)
  {
    hide IsValid, FrameOf, Record, Wrapped, ValidInputs;
  }

  /** What a consumer step does to the waiting frames. */
  lemma ConsumerStepShape(s: State, t: State)
    requires ConsumerNext(s) == Some(t)
    requires s.consumer.Holding? ==> |s.consumer.bytes| == FRAME_SIZE && IsValid(s.consumer.bytes)
    ensures s.consumer.Holding? ==> t.consumer.Popping? && t.queue == s.queue
    ensures s.consumer.Popping? && s.queue != [] ==> t.consumer.Holding? && |t.queue| == |s.queue| - 1
    ensures s.consumer.Popping? && s.queue == [] ==> t.consumer.Returned? && s.closed
    ensures !s.consumer.Returned?
  {
    hide FrameOf, Record, Wrapped;
  }

  lemma ConsumerStepWork(c: Config, s: State, t: State)
    requires Inv(c, s) && ConsumerNext(s) == Some(t) && Inv(c, t)
    ensures Work(c, t) == Work(c, s) - 1
  {
    hide IsValid, ConsumerNext, CountersExpected, QueueInv, IngestorInv, Processed, Pushed, IngestorWork, ValidInputs;
    ProcessedCount(c, s);
    ProcessedCount(c, t);
    ConsumerFrame(c, s, t);
    if s.consumer.Holding? {
      HeldIsValid(c, s);
    }
    ConsumerStepShape(s, t);
    if t.consumer.Returned? {
      AllProcessed(c, s);
    }
  }

  lemma StepWork(c: Config, s: State, t: State)
    requires Inv(c, s) && Step(c, s, t)
    ensures Inv(c, t) && Work(c, t) == Work(c, s) - 1
  {
    hide Inv, IngestorNext, ConsumerNext, Work;
    StepInv(c, s, t);
    if IngestorNext(c, s) == Some(t) {
      IngestorStepWork(c, s, t);
    } else {
      ConsumerStepWork(c, s, t);
    }
  }

  lemma InitialWork(c: Config)
    requires c.capacity >= 1
    ensures Inv(c, INITIAL) && Work(c, INITIAL) == TotalWork(c)
  {
    InitialInv(c);
    assert c.inputs[..0] == [];
  }

  /** Steps taken and steps left add up to the same total along every interleaving. */
  lemma {:induction false} RunLength(c: Config, run: seq<State>, k: nat)
    requires c.capacity >= 1 && IsRun(c, run) && k < |run|
    ensures Inv(c, run[k]) && k + Work(c, run[k]) == TotalWork(c)
    decreases k
  {
    hide Inv, Step, Work, TotalWork;
    if k == 0 {
      InitialWork(c);
    } else {
      RunLength(c, run, k - 1);
      assert Step(c, run[k - 1], run[k - 1 + 1]);
      StepWork(c, run[k - 1], run[k]);
    }
  }

  // ----- The outcome

  /** What the sequential program over the same inputs reports. */
  function SequentialOutcome(inputs: seq<Bytes>): Outcome {
    Outcome(true, ConsumerResult(true, |ValidInputs(inputs)| % TWO_TO_THE_64), SequentialSnapshot(inputs))
  }

  lemma DoneOutcome(c: Config, s: State)
    requires Inv(c, s) && s.ingestor.Done?
    ensures s.ingestor.outcome == SequentialOutcome(c.inputs)
    ensures s.queue == [] && s.closed && s.consumer.Returned?
  {
    hide IsValid, ErrorOf, ProcessingAfter, CountersAfter, ValidInputs;
    assert c.inputs[..s.taken] == c.inputs;
    assert Processed(c, s) == ValidInputs(c.inputs);
  }

  /** The main thread has reported what the sequential program reports, and nothing is left over. */
  ghost predicate Completed(c: Config, s: State) {
    s.ingestor == Done(SequentialOutcome(c.inputs)) && s.queue == [] && s.closed && s.consumer.Returned?
  }

  lemma DoneIsCompleted(c: Config, s: State)
    requires Inv(c, s) && s.ingestor.Done?
    ensures Completed(c, s)
  {
    hide Inv, SequentialOutcome;
    DoneOutcome(c, s);
  }

  /** The state after `k` steps has the rest of the work left, and is blocked when there is none. */
  lemma StateAfter(c: Config, run: seq<State>, k: nat)
    requires c.capacity >= 1 && IsRun(c, run) && k < |run|
    ensures Inv(c, run[k]) && k <= TotalWork(c)
    ensures Blocked(c, run[k]) <==> run[k].ingestor.Done?
    ensures Blocked(c, run[k]) <==> k == TotalWork(c)
  {
    hide *;
    RunLength(c, run, k);
    WorkNonnegative(c, run[k]);
    Progress(c, run[k]);
  }

  /**
   Schedule independence: the state after `k` steps of any interleaving can go on exactly when k < 4n + 2v + 4, for n
   inputs of which v are valid, and after 4n + 2v + 4 steps it has ended, with success, in the snapshot of the sequential
   program.
   */
  lemma ScheduleIndependence(c: Config, run: seq<State>, k: nat)
    requires c.capacity >= 1 && IsRun(c, run) && k < |run|
    ensures k <= TotalWork(c)
    ensures Blocked(c, run[k]) <==> k == TotalWork(c)
    ensures Blocked(c, run[k]) ==> Completed(c, run[k])
  {
    hide *;
    StateAfter(c, run, k);
    if run[k].ingestor.Done? {
      DoneIsCompleted(c, run[k]);
    }
  }

  lemma NextState(c: Config, s: State) returns (t: State)
    requires !Blocked(c, s)
    ensures Step(c, s, t)
  {
    hide IngestorNext, ConsumerNext;
    t := if IngestorNext(c, s).Some? then IngestorNext(c, s).value else ConsumerNext(s).value;
  }

  lemma OneMoreStep(c: Config, run: seq<State>, next: State)
    requires IsRun(c, run) && Step(c, run[|run| - 1], next)
    ensures IsRun(c, run + [next])
  {
    hide Step;
    var longer := run + [next];
    forall i | 0 <= i < |longer| - 1
      ensures Step(c, longer[i], longer[i + 1])
    {
      if i < |run| - 1 {
        assert Step(c, run[i], run[i + 1]);
      }
    }
  }

  lemma LongerRun(c: Config, run: seq<State>) returns (longer: seq<State>)
    requires c.capacity >= 1 && IsRun(c, run) && !Blocked(c, run[|run| - 1])
    ensures IsRun(c, longer) && run <= longer && |run| < |longer| <= TotalWork(c) + 1
  {
    hide TotalWork, Step, Blocked, Completed;
    var next := NextState(c, run[|run| - 1]);
    OneMoreStep(c, run, next);
    longer := run + [next];
    ScheduleIndependence(c, longer, |run|);
  }

  /** Every interleaving can be completed. */
  lemma Completion(c: Config, run: seq<State>) returns (whole: seq<State>)
    requires c.capacity >= 1 && IsRun(c, run)
    ensures IsRun(c, whole) && run <= whole && Completed(c, whole[|whole| - 1])
    decreases TotalWork(c) + 1 - |run|
  {
    hide TotalWork, Step, Blocked, Completed;
    ScheduleIndependence(c, run, |run| - 1);
    if Blocked(c, run[|run| - 1]) {
      whole := run;
    } else {
      var longer := LongerRun(c, run);
      whole := Completion(c, longer);
    }
  }

  // ----- What an observer may see on the way

  /**
   In every reachable state the counters account for every input begun. Processing leads by at most one frame, and leads
   exactly while the frame just pushed is not yet counted and nothing waits.
   */
  lemma ReachableCounters(c: Config, run: seq<State>, k: nat)
    requires c.capacity >= 1 && IsRun(c, run) && k < |run| && |c.inputs| < TWO_TO_THE_64
    ensures var s := run[k];
            && s.counters.inputs == s.counters.accepted + s.counters.rejected +
                 (if InFlight(s.ingestor) && !s.ingestor.Classifying? then 1 else 0)
            && s.counters.rejected == SumOfErrors(s.counters.parseErrors) +
                 (if s.ingestor.Classifying? then 1 else 0)
            && s.counters.queueClosed == 0
            && s.counters.accepted + (if s.ingestor.Accepting? then 1 else 0)
               == s.consumed + |Held(s)| + |s.queue|
            && s.consumed <= s.counters.accepted + 1
            && (s.consumed > s.counters.accepted <==> s.ingestor.Accepting? && Held(s) == [] && s.queue == [])
            && |s.queue| <= c.capacity
  {
    hide IsRun, IsValid, ErrorOf, ProcessingAfter, CountersAfter, ValidInputs;
    var s := run[k];
    RunInv(c, run, k);
    CountersMeaning(c.inputs[..s.taken]);
    assert |Pushed(c, s)| == |Processed(c, s)| + |Held(s)| + |s.queue|;
  }

  /** The lead is real: a frame can be fully processed before the ingestor has counted it as accepted. */
  lemma ProcessedBeforeAccepted(b: Bytes) returns (run: seq<State>)
    requires IsValid(b)
    ensures var c := Config([b], 1);
            && IsRun(c, run)
            && run[|run| - 1].consumed == 1 && run[|run| - 1].counters.accepted == 0
  {
    hide IsValid, ErrorOf, FrameOf, Record, Wrapped;
    ValidHasFrameSize(b);
    var c := Config([b], 1);
    var s0 := INITIAL;
    var s1 := s0.(ingestor := Parsing, counters := CountInput(s0.counters));
    var s2 := s1.(ingestor := Pushing);
    var s3 := s2.(ingestor := Accepting, queue := [b]);
    var s4 := s3.(consumer := Holding(b), queue := []);
    var s5 := s4.(consumer := Popping, consumed := 1,
                  processing := Wrapped(Record(s4.processing, FrameOf(b))));
    assert [] + [b] == [b] && [b][1..] == [];
    assert IngestorNext(c, s0) == Some(s1) && IngestorNext(c, s1) == Some(s2) && IngestorNext(c, s2) == Some(s3);
    assert ConsumerNext(s3) == Some(s4) && ConsumerNext(s4) == Some(s5);
    run := [s0, s1, s2, s3, s4, s5];
    assert Step(c, s0, s1) && Step(c, s1, s2) && Step(c, s2, s3) && Step(c, s3, s4) && Step(c, s4, s5);
  }
}
