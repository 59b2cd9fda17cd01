/** What the numbers of a completed host run say about the inputs it was given. */
module HostMeaning {
  import opened Words
  import opened Protocol
  import opened Metrics
  import opened Ingestion
  import opened SequenceAnalysis
  import opened Statistics
  import opened RunMeaning
  import opened HostPipeline
  import opened HostOutcome

  /** The frames of the inputs that parse. */
  function ValidFrames(inputs: seq<Bytes>): seq<TelemetryFrame> {
    FramesOf(ValidInputs(inputs))
  }

  /** The snapshot holds, in 64-bit counters, what there is to say about the frames. */
  ghost predicate SnapshotHolds(
      snapshot: Snapshot, frames: seq<TelemetryFrame>, temperatures: seq<int>, supplies: seq<int>) {
    exists p :: Describes(p, frames, temperatures, supplies) && HeldIn64Bits(snapshot.processing, p)
  }

  /**
   However the threads interleave, the reported counts add up, what was accepted is what was processed, and every number of
   the snapshot says about the frames that parse what it stands for.
   */
  lemma CompletedMeaning(c: Config, run: seq<State>, k: nat, temperatures: seq<int>, supplies: seq<int>)
    requires c.capacity >= 1 && IsRun(c, run) && k < |run| && Blocked(c, run[k]) && |c.inputs| < TWO_TO_THE_64
    requires AreTemperatures(temperatures, ValidFrames(c.inputs)) && AreSupplies(supplies, ValidFrames(c.inputs))
    ensures run[k].ingestor.Done? && run[k].ingestor.outcome.success
    ensures var snapshot, frames := run[k].ingestor.outcome.snapshot, ValidFrames(c.inputs);
            && snapshot.counters.inputs == |c.inputs| == snapshot.counters.accepted + snapshot.counters.rejected
            && snapshot.counters.parseErrors == FailuresByError(c.inputs) && snapshot.counters.queueClosed == 0
            && snapshot.counters.accepted == snapshot.processing.processed == |frames|
            && snapshot.processing.sequences.missing == |NeverReceived(frames)| + LateArrivals(frames)
            && SnapshotHolds(snapshot, frames, temperatures, supplies)
  {
    hide *;
    ScheduleIndependence(c, run, k);
    CompletedSnapshot(c, run[k]);
    SnapshotCounters(c.inputs);
    SnapshotProcessing(c.inputs);
    SnapshotDescribed(run[k].ingestor.outcome.snapshot, c.inputs, temperatures, supplies);
  }

  lemma SnapshotDescribed(snapshot: Snapshot, inputs: seq<Bytes>, temperatures: seq<int>, supplies: seq<int>)
    requires snapshot.processing == ProcessingAfter(ValidInputs(inputs))
    requires AreTemperatures(temperatures, ValidFrames(inputs)) && AreSupplies(supplies, ValidFrames(inputs))
    ensures SnapshotHolds(snapshot, ValidFrames(inputs), temperatures, supplies)
  {
    hide Fold, Wrapped, ValidInputs, AreTemperatures, AreSupplies, Describes, HeldIn64Bits;
    var p := Fold(ValidFrames(inputs));
    FoldDescribes(ValidFrames(inputs), temperatures, supplies);
    WrappedIsHeld(p);
  }

  lemma CompletedSnapshot(c: Config, s: State)
    requires Completed(c, s)
    ensures s.ingestor.Done? && s.ingestor.outcome.success
    ensures s.ingestor.outcome.snapshot.counters == CountersAfter(c.inputs)
    ensures s.ingestor.outcome.snapshot.processing == ProcessingAfter(ValidInputs(c.inputs))
  {
    hide CountersAfter, ProcessingAfter, ValidInputs;
  }

  lemma SnapshotCounters(inputs: seq<Bytes>)
    requires |inputs| < TWO_TO_THE_64
    ensures var c := CountersAfter(inputs);
            && c.inputs == |inputs| == c.accepted + c.rejected && c.accepted == |ValidInputs(inputs)|
            && c.parseErrors == FailuresByError(inputs) && c.queueClosed == 0
  {
    hide CountersAfter, ValidInputs, FailuresByError;
    CountersMeaning(inputs);
  }

  lemma SnapshotProcessing(inputs: seq<Bytes>)
    requires |inputs| < TWO_TO_THE_64
    ensures var p, frames := ProcessingAfter(ValidInputs(inputs)), ValidFrames(inputs);
            && p.processed == |frames| == |ValidInputs(inputs)|
            && p.sequences.missing == |NeverReceived(frames)| + LateArrivals(frames)
  {
    hide Fold, ValidInputs, NeverReceived, LateArrivals;
    var frames := ValidFrames(inputs);
    FoldWellFormed(frames);
    MissingMeaning(frames);
    MissingNeverWraps(frames);
  }
}
