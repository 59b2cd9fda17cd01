/** No interleaving of the firmware deadlocks, all take the same number of steps, and all print the same output. */
module FirmwareOutcome {
  import opened Words
  import opened Protocol
  import opened FirmwarePipeline
  import opened FirmwareInvariant

  // ----- Progress

  /** From every state the invariant allows, some thread can move until `main` has exited. */
  lemma Progress(c: Config, s: State)
    requires c.capacity >= 1 && Inv(c, s)
    ensures Blocked(c, s) <==> s.main.Exited?
  {
    hide Serialize, FrameLine, Trailer, MetricsAreValid, Wrap32, Lines, MetricsExpected;
    if !EndPushed(s) {
      NotFinished(c, s);
    }
    if !s.transmitter.TransmitterFinished? && s.transmitter.Popping? && s.queue == [] {
      EmptyQueueMeansNoMarker(c, s);
    }
  }

  /** A waiting transmitter with an empty queue is still owed the marker. */
  lemma EmptyQueueMeansNoMarker(c: Config, s: State)
    requires Inv(c, s) && s.transmitter.Popping? && s.queue == []
    ensures !EndPushed(s)
  {
    hide Serialize, FrameLine, Trailer, MetricsAreValid, Wrap32, Lines, MetricsExpected, Items;
    assert Held(s) + s.queue + End(false) == [];
    MarkerPresent(Items(c.frames[|s.output|..PushedCount(s)]), EndPushed(s));
  }

  function ProducerWork(c: Config, s: State): int {
    4 * (|c.frames| - s.nextIndex) +
    match s.producer
    case AtTop => 3
    case Generated(_) => 6
    case Pushing(_) => 5
    case Counting => 4
    case PushingEnd => 2
    case CountingEnd => 1
    case ProducerFinished(_) => 0
  }

  function TransmitterWork(c: Config, s: State): int {
    3 * (|c.frames| - |s.output|) +
    match s.transmitter
    case Popping => 2
    case Holding(_) => 1
    case Printed => 3
    case TransmitterFinished(_) => 0
  }

  function MainWork(s: State): nat {
    match s.main
    case AwaitingProducer => 3
    case AwaitingTransmitter => 2
    case Judging => 1
    case Exited(_, _) => 0
  }

  /** The steps still to be taken. */
  function Work(c: Config, s: State): int {
    ProducerWork(c, s) + TransmitterWork(c, s) + MainWork(s)
  }

  function TotalWork(c: Config): nat {
    7 * |c.frames| + 8
  }

  lemma FinishedMeansAllPrinted(c: Config, s: State)
    requires Inv(c, s) && s.transmitter.TransmitterFinished?
    ensures |s.output| == |c.frames| && EndPushed(s)
  {
    hide Serialize, FrameLine, Trailer, MetricsAreValid, Wrap32, Lines, MetricsExpected;
    if !EndPushed(s) {
      NotFinished(c, s);
    }
    var pending := Items(c.frames[|s.output|..PushedCount(s)]);
    assert |pending + End(EndPushed(s))| == |Held(s) + s.queue + End(true)|;
  }

  lemma WorkNonnegative(c: Config, s: State)
    requires Inv(c, s)
    ensures Work(c, s) >= 0
    ensures Work(c, s) == 0 <==> s.main.Exited?
  {
    hide Serialize, FrameLine, Trailer, MetricsAreValid, Wrap32, Lines, MetricsExpected, Items;
    if s.transmitter.TransmitterFinished? {
      FinishedMeansAllPrinted(c, s);
    }
  }

  lemma ProducerStepWork(c: Config, s: State, t: State)
    requires ProducerInv(c, s) && ProducerNext(c, s) == Some(t)
    ensures ProducerWork(c, t) == ProducerWork(c, s) - 1
    ensures t.output == s.output && t.transmitter == s.transmitter && t.main == s.main
  {
    hide Serialize, Inc64;
  }

  lemma TransmitterStepWork(c: Config, s: State, t: State)
    requires TransmitterNext(s) == Some(t)
    ensures TransmitterWork(c, t) == TransmitterWork(c, s) - 1
    ensures t.nextIndex == s.nextIndex && t.producer == s.producer && t.main == s.main
  {
    hide FrameLine, Wrap32, Inc64;
  }

  lemma MainStepWork(c: Config, s: State, t: State)
    requires MainNext(c, s) == Some(t)
    ensures MainWork(t) == MainWork(s) - 1
    ensures t.output == s.output && t.transmitter == s.transmitter
    ensures t.nextIndex == s.nextIndex && t.producer == s.producer
  {
    hide MetricsAreValid, Trailer;
  }

  lemma StepWork(c: Config, s: State, t: State)
    requires Inv(c, s) && Step(c, s, t)
    ensures Work(c, t) == Work(c, s) - 1
  {
    hide ProducerInv, StreamInv, MainInv, MetricsExpected, ProducerNext, TransmitterNext, MainNext;
    if ProducerNext(c, s) == Some(t) {
      ProducerStepWork(c, s, t);
    } else if TransmitterNext(s) == Some(t) {
      TransmitterStepWork(c, s, t);
    } else {
      MainStepWork(c, s, t);
    }
  }

  /** Steps taken and steps left add up to the same total along every interleaving. */
  lemma {:induction false} RunLength(c: Config, run: seq<State>, k: nat)
    requires IsRun(c, run) && k < |run|
    ensures Inv(c, run[k]) && k + Work(c, run[k]) == TotalWork(c)
    decreases k
  {
    hide Inv, Step, Work;
    if k == 0 {
      InitialInv(c);
      InitialWork(c);
    } else {
      RunLength(c, run, k - 1);
      assert Step(c, run[k - 1], run[k - 1 + 1]);
      StepWork(c, run[k - 1], run[k]);
      StepInv(c, run[k - 1], run[k]);
    }
  }

  lemma InitialWork(c: Config)
    ensures Work(c, INITIAL) == TotalWork(c)
  {
  }

  // ----- The outcome

  /** The counters of a whole run. */
  function FinalMetrics(n: nat): FirmwareMetricsSnapshot {
    FirmwareMetricsSnapshot(n % TWO_TO_THE_64, n % TWO_TO_THE_64, n % TWO_TO_THE_64, n % TWO_TO_THE_64, 0, 0, 1, 1)
  }

  lemma ExitedOutcome(c: Config, s: State)
    requires Inv(c, s) && s.main.Exited?
    ensures s.output == Lines(c.frames) && s.queue == []
    ensures s.producer == ProducerFinished(true) && s.transmitter == TransmitterFinished(true)
    ensures s.metrics == FinalMetrics(|c.frames|)
    ensures s.main.succeeded == MetricsAreValid(s.metrics, c.expected)
    ensures s.main.trailer == Trailer(s.main.succeeded, s.metrics)
  {
    hide Serialize, FrameLine, Trailer, MetricsAreValid, Wrap32, Lines, Items;
    FinishedMeansAllPrinted(c, s);
    assert c.frames[..|s.output|] == c.frames;
  }

  lemma VerdictOfCount(n: nat, expected: nat)
    requires n < TWO_TO_THE_64
    ensures MetricsAreValid(FinalMetrics(n), expected) <==> expected == n
    ensures FinalMetrics(n) == FirmwareMetricsSnapshot(n, n, n, n, 0, 0, 1, 1)
  {
  }

  /** Valid counters are those of a run without failures that sent and received everything, and no others. */
  lemma ValidMetricsAreThese(m: FirmwareMetricsSnapshot, expected: nat)
    ensures MetricsAreValid(m, expected) <==>
            m == FirmwareMetricsSnapshot(expected, expected, expected, expected, 0, 0, 1, 1)
  {
  }

  /** In any state, the verdict demands success of both threads, an empty queue and exactly the counters of a whole run. */
  lemma JudgedSuccess(c: Config, s: State)
    requires s.main.Judging?
    ensures var t := MainNext(c, s);
            && t.Some? && t.value.main.Exited?
            && (t.value.main.succeeded <==>
                  && s.producer == ProducerFinished(true) && s.transmitter == TransmitterFinished(true) && s.queue == []
                  && s.metrics == FirmwareMetricsSnapshot(c.expected, c.expected, c.expected, c.expected, 0, 0, 1, 1))
            && t.value.main.trailer == Trailer(t.value.main.succeeded, s.metrics)
  {
    hide MetricsAreValid, Trailer;
    ValidMetricsAreThese(s.metrics, c.expected);
  }

  /** Everything a completed run has printed. */
  function CompleteOutput(c: Config): seq<string> {
    Lines(c.frames) + Trailer(|c.frames| == c.expected, FinalMetrics(|c.frames|))
  }

  /** What a state has printed so far. */
  function Written(s: State): seq<string> {
    s.output + if s.main.Exited? then s.main.trailer else []
  }

  /** Success exactly when the compiled-in count is the number of samples, with everything sent and printed in order. */
  ghost predicate CompletedAsExpected(c: Config, s: State) {
    && s.producer == ProducerFinished(true) && s.transmitter == TransmitterFinished(true)
    && s.queue == [] && s.metrics == FinalMetrics(|c.frames|)
    && s.main.Exited? && s.main.succeeded == (|c.frames| == c.expected)
    && Written(s) == CompleteOutput(c)
  }

  lemma ExitedAsExpected(c: Config, s: State)
    requires Inv(c, s) && s.main.Exited? && |c.frames| < TWO_TO_THE_64
    ensures CompletedAsExpected(c, s)
  {
    hide Inv, Lines, Trailer, MetricsAreValid, FinalMetrics;
    ExitedOutcome(c, s);
    VerdictOfCount(|c.frames|, c.expected);
  }

  /** The state after `k` steps has the rest of the work left, and is blocked when there is none. */
  lemma StateAfter(c: Config, run: seq<State>, k: nat)
    requires c.capacity >= 1 && IsRun(c, run) && k < |run|
    ensures Inv(c, run[k]) && k <= TotalWork(c)
    ensures Blocked(c, run[k]) <==> run[k].main.Exited?
    ensures Blocked(c, run[k]) <==> k == TotalWork(c)
  {
    hide *;
    RunLength(c, run, k);
    WorkNonnegative(c, run[k]);
    Progress(c, run[k]);
  }

  /**
   The state after `k` steps of any interleaving can go on exactly when k < 7n + 8, for n samples, and after 7n + 8 steps
   it has completed as expected.
   */
  lemma RunOutcome(c: Config, run: seq<State>, k: nat)
    requires c.capacity >= 1 && IsRun(c, run) && k < |run| && |c.frames| < TWO_TO_THE_64
    ensures k <= TotalWork(c)
    ensures Blocked(c, run[k]) <==> k == TotalWork(c)
    ensures Blocked(c, run[k]) ==> CompletedAsExpected(c, run[k])
  {
    hide *;
    StateAfter(c, run, k);
    if run[k].main.Exited? {
      ExitedAsExpected(c, run[k]);
    }
  }

  lemma NextState(c: Config, s: State) returns (t: State)
    requires !Blocked(c, s)
    ensures Step(c, s, t)
  {
    hide ProducerNext, TransmitterNext, MainNext;
    t := if ProducerNext(c, s).Some? then ProducerNext(c, s).value
         else if TransmitterNext(s).Some? then TransmitterNext(s).value
         else MainNext(c, s).value;
  }

  lemma OneMoreStep(c: Config, run: seq<State>, next: State)
    requires IsRun(c, run) && Step(c, run[|run| - 1], next)
    ensures IsRun(c, run + [next])
  {
    hide Step;
    var longer := run + [next];
    forall i | 0 <= i < |longer| - 1
      ensures Step(c, longer[i], longer[i + 1])
    {
      if i < |run| - 1 {
        assert Step(c, run[i], run[i + 1]);
      }
    }
  }

  lemma LongerRun(c: Config, run: seq<State>) returns (longer: seq<State>)
    requires c.capacity >= 1 && IsRun(c, run) && !Blocked(c, run[|run| - 1]) && |c.frames| < TWO_TO_THE_64
    ensures IsRun(c, longer) && run <= longer && |run| < |longer| <= TotalWork(c) + 1
  {
    hide TotalWork, Step, Blocked, CompletedAsExpected;
    var next := NextState(c, run[|run| - 1]);
    OneMoreStep(c, run, next);
    longer := run + [next];
    RunOutcome(c, longer, |run|);
  }

  /** Every interleaving can be completed. */
  lemma Completion(c: Config, run: seq<State>) returns (whole: seq<State>)
    requires c.capacity >= 1 && IsRun(c, run) && |c.frames| < TWO_TO_THE_64
    ensures IsRun(c, whole) && run <= whole && CompletedAsExpected(c, whole[|whole| - 1])
    decreases TotalWork(c) + 1 - |run|
  {
    hide TotalWork, Step, Blocked, CompletedAsExpected;
    RunOutcome(c, run, |run| - 1);
    if Blocked(c, run[|run| - 1]) {
      whole := run;
    } else {
      var longer := LongerRun(c, run);
      whole := Completion(c, longer);
    }
  }

  // ----- What an observer may see on the way

  /** In every reachable state the queue is bounded, and its end marker, if any, is the last item and the only one. */
  lemma ReachableQueue(c: Config, run: seq<State>, k: nat)
    requires IsRun(c, run) && k < |run|
    ensures var s := run[k];
            && |s.queue| <= c.capacity
            && (forall i :: 0 <= i < |s.queue| && s.queue[i].EndOfStream? ==> i == |s.queue| - 1 && EndPushed(s))
            && |s.output| <= |c.frames| && s.output == Lines(c.frames[..|s.output|])
  {
    hide IsRun, Serialize, FrameLine, Trailer, MetricsAreValid, Wrap32, Lines, MetricsExpected;
    RunInv(c, run, k);
    var s := run[k];
    var pending := Items(c.frames[|s.output|..PushedCount(s)]);
    var left, right := pending + End(EndPushed(s)), Held(s) + s.queue + End(s.transmitter.TransmitterFinished?);
    assert left == right;
    forall i | 0 <= i < |s.queue| && s.queue[i].EndOfStream?
      ensures i == |s.queue| - 1 && EndPushed(s)
    {
      assert right[|Held(s)| + i] == s.queue[i];
      assert left[|Held(s)| + i] == s.queue[i];
      MarkerAbsent(c.frames[|s.output|..PushedCount(s)]);
    }
  }
}
