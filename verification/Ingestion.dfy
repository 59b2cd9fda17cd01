/** What the host pipeline is for, as a sequential program over the list of raw inputs. */
module Ingestion {
  import opened Words
  import opened Protocol
  import opened Metrics

  type Bytes = seq<byte>

  predicate IsValid(b: Bytes) {
    Deserialize(b).frame.Some?
  }

  function ErrorOf(b: Bytes): ParseError {
    Deserialize(b).error
  }

  function FrameOf(b: Bytes): TelemetryFrame
    requires IsValid(b)
  {
    Deserialize(b).frame.value
  }

  /** The inputs that parse, in order. */
  function ValidInputs(inputs: seq<Bytes>): (r: seq<Bytes>)
    ensures forall b :: b in r ==> IsValid(b)
    ensures |r| <= |inputs|
  {
    if |inputs| == 0 then []
    else
      var init, b := ValidInputs(inputs[..|inputs| - 1]), inputs[|inputs| - 1];
      if IsValid(b) then init + [b] else init
  }

  function FramesOf(inputs: seq<Bytes>): (frames: seq<TelemetryFrame>)
    requires forall b :: b in inputs ==> IsValid(b)
    ensures |frames| == |inputs|
    ensures forall i :: 0 <= i < |inputs| ==> frames[i] == FrameOf(inputs[i])
  {
    seq(|inputs|, i requires 0 <= i < |inputs| => FrameOf(inputs[i]))
  }

  /** What ingesting one input counts. */
  function CountOne(c: Counters, b: Bytes): Counters {
    if IsValid(b) then CountAccepted(CountInput(c)) else CountParseError(CountRejected(CountInput(c)), ErrorOf(b))
  }

  function CountersAfter(inputs: seq<Bytes>): Counters {
    if |inputs| == 0 then NOTHING_COUNTED
    else CountOne(CountersAfter(inputs[..|inputs| - 1]), inputs[|inputs| - 1])
  }

  /** The processing fields after the valid frames have been recorded in order. */
  function ProcessingAfter(valid: seq<Bytes>): Processing
    requires forall b :: b in valid ==> IsValid(b)
  {
    Wrapped(Fold(FramesOf(valid)))
  }

  function SequentialSnapshot(inputs: seq<Bytes>): Snapshot {
    Snapshot(CountersAfter(inputs), ProcessingAfter(ValidInputs(inputs)))
  }

  lemma ValidSnoc(inputs: seq<Bytes>, b: Bytes)
    ensures ValidInputs(inputs + [b]) == if IsValid(b) then ValidInputs(inputs) + [b] else ValidInputs(inputs)
  {
    hide IsValid;
    assert (inputs + [b])[..|inputs|] == inputs;
  }

  lemma CountersSnoc(inputs: seq<Bytes>, b: Bytes)
    ensures CountersAfter(inputs + [b]) == CountOne(CountersAfter(inputs), b)
  {
    hide CountOne;
    assert (inputs + [b])[..|inputs|] == inputs;
  }

  lemma ProcessingSnoc(valid: seq<Bytes>, b: Bytes)
    requires IsValid(b) && forall v :: v in valid ==> IsValid(v)
    ensures ProcessingAfter(valid + [b]) == Wrapped(Record(ProcessingAfter(valid), FrameOf(b)))
  {
    hide IsValid, FrameOf, Fold, Record, Wrapped;
    assert FramesOf(valid + [b]) == FramesOf(valid) + [FrameOf(b)];
    FoldSnoc(FramesOf(valid), FrameOf(b));
    WrappedRecord(Fold(FramesOf(valid)), FrameOf(b));
  }

  lemma {:induction false} ValidPrefix(inputs: seq<Bytes>, n: nat)
    requires n <= |inputs|
    ensures |ValidInputs(inputs[..n])| <= |ValidInputs(inputs)|
    decreases |inputs| - n
  {
    hide IsValid;
    if n < |inputs| {
      assert inputs[..n + 1] == inputs[..n] + [inputs[n]];
      ValidSnoc(inputs[..n], inputs[n]);
      ValidPrefix(inputs, n + 1);
    } else {
      assert inputs[..n] == inputs;
    }
  }

  // ----- What the counters amount to

  function SumOfErrors(e: ParseErrorCounters): nat {
    e.invalidFrameSize + e.invalidMagic + e.unsupportedVersion + e.unsupportedMessageType + e.invalidPayloadSize +
    e.checksumMismatch
  }

  /** Inputs whose parse fails with `error`. */
  function Failures(inputs: seq<Bytes>, error: ParseError): nat {
    if |inputs| == 0 then 0
    else Failures(inputs[..|inputs| - 1], error) + if ErrorOf(inputs[|inputs| - 1]) == error then 1 else 0
  }

  /** The inputs that failed, by error. */
  function FailuresByError(inputs: seq<Bytes>): ParseErrorCounters {
    ParseErrorCounters(
      Failures(inputs, InvalidFrameSize), Failures(inputs, InvalidMagic), Failures(inputs, UnsupportedVersion),
      Failures(inputs, UnsupportedMessageType), Failures(inputs, InvalidPayloadSize),
      Failures(inputs, ChecksumMismatch))
  }

  ghost predicate CountsAddUp(inputs: seq<Bytes>, c: Counters) {
    && c.inputs == |inputs| == c.accepted + c.rejected
    && c.accepted == |ValidInputs(inputs)|
    && c.rejected == SumOfErrors(c.parseErrors) && c.queueClosed == 0
    && c.parseErrors == FailuresByError(inputs)
  }

  lemma FailuresSnoc(inputs: seq<Bytes>, b: Bytes, error: ParseError)
    ensures Failures(inputs + [b], error) == Failures(inputs, error) + if ErrorOf(b) == error then 1 else 0
  {
    hide ErrorOf;
    assert (inputs + [b])[..|inputs|] == inputs;
  }

  lemma FailuresByErrorSnoc(inputs: seq<Bytes>, b: Bytes)
    ensures var f, g := FailuresByError(inputs), FailuresByError(inputs + [b]);
            match ErrorOf(b)
            case InvalidFrameSize => g == f.(invalidFrameSize := f.invalidFrameSize + 1)
            case InvalidMagic => g == f.(invalidMagic := f.invalidMagic + 1)
            case UnsupportedVersion => g == f.(unsupportedVersion := f.unsupportedVersion + 1)
            case UnsupportedMessageType => g == f.(unsupportedMessageType := f.unsupportedMessageType + 1)
            case InvalidPayloadSize => g == f.(invalidPayloadSize := f.invalidPayloadSize + 1)
            case ChecksumMismatch => g == f.(checksumMismatch := f.checksumMismatch + 1)
            case NoError => g == f
  {
    hide Failures, ErrorOf;
    FailuresSnoc(inputs, b, InvalidFrameSize);
    FailuresSnoc(inputs, b, InvalidMagic);
    FailuresSnoc(inputs, b, UnsupportedVersion);
    FailuresSnoc(inputs, b, UnsupportedMessageType);
    FailuresSnoc(inputs, b, InvalidPayloadSize);
    FailuresSnoc(inputs, b, ChecksumMismatch);
  }

  lemma CountsAddUpSnoc(inputs: seq<Bytes>, b: Bytes, c: Counters)
    requires CountsAddUp(inputs, c) && |inputs| + 1 < TWO_TO_THE_64
    ensures CountsAddUp(inputs + [b], CountOne(c, b))
  {
    hide IsValid, ErrorOf, ValidInputs, FailuresByError, Inc64;
    ErrorIffInvalid(b);
    ValidSnoc(inputs, b);
    FailuresByErrorSnoc(inputs, b);
  }

  /** Every input is counted once as accepted or once as rejected, and every rejection once under its own error. */
  lemma {:induction false} CountersMeaning(inputs: seq<Bytes>)
    requires |inputs| < TWO_TO_THE_64
    ensures CountsAddUp(inputs, CountersAfter(inputs))
    decreases |inputs|
  {
    hide CountOne, ErrorOf;
    if |inputs| > 0 {
      var init, b := inputs[..|inputs| - 1], inputs[|inputs| - 1];
      assert inputs == init + [b];
      CountersMeaning(init);
      CountsAddUpSnoc(init, b, CountersAfter(init));
    }
  }

  lemma ErrorIffInvalid(b: Bytes)
    ensures IsValid(b) <==> ErrorOf(b) == NoError
  {
    hide Deserialize;
  }

  lemma ValidHasFrameSize(b: Bytes)
    requires IsValid(b)
    ensures |b| == FRAME_SIZE
  {
  }
}
