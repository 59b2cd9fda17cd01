/** The captures the validator accepts, and the complete runs among them. */
module CaptureOutcome {
  import opened Words
  import opened Protocol
  import opened ProtocolCodec
  import opened HexFormatter
  import opened Report
  import opened SensorModel
  import opened FirmwarePipeline
  import opened FirmwareOutcome
  import opened CaptureValidation
  import opened CaptureTheorems

  // ----- Records of printed lines

  function RecordOf(frame: TelemetryFrame, k: nat): Groups {
    Groups(Pad4(k + 1), Hex(Serialize(frame)))
  }

  lemma SmallIndex(k: nat)
    requires k < 1_000_000
    ensures Wrap32(k + 1) == k + 1
  {
  }

  /** Up to 9999 the record of a printed line is readable and carries the frame's bytes. */
  lemma PrintedRecord(frame: TelemetryFrame, k: nat)
    requires k < 9999
    ensures var line, record := FrameLine(Wrap32(k + 1), Serialize(frame)), RecordOf(frame, k);
            MatchFrame(line) == Some(record) && Readable(record) && Raw(record) == Serialize(frame)
  {
    hide Serialize, Hex, Pad4, MatchFrame, AllHex, Unhex, Wrap32, FrameLine;
    SmallIndex(k);
    IndexDigits(k + 1);
    UnhexOfHex(Serialize(frame));
    MatchOfFrameLine(k + 1, Serialize(frame));
  }

  lemma FrameLineKind(index: nat, bytes: seq<byte>)
    ensures var line := FrameLine(index, bytes);
            IsFrameLine(line) && !IsSummaryLine(line) && !IsDone(line)
  {
    hide Pad4, Hex;
    var line := FrameLine(index, bytes);
    assert line[2] == 'F' && "TLFIRMWARE SUMMARY"[2] == 'F' && line[3] == 'R' && "TLFIRMWARE SUMMARY"[3] == 'I';
    assert DONE[3] == 'I';
  }

  /**
   The records printed for n frames are all readable exactly when n <= 9999, because the next index has five digits; then
   record k has index k + 1 and the bytes of frame k.
   */
  lemma PrintedRecords(lines: seq<string>, frames: seq<TelemetryFrame>)
    requires Filter(IsFrameLine, lines) == Lines(frames)
    ensures Records(lines).Some? <==> |frames| <= 9999
    ensures Records(lines).Some? ==>
              var records := Records(lines).value;
              |records| == |frames| &&
              forall k :: 0 <= k < |frames| ==>
                records[k].index == Pad4(k + 1) && Raw(records[k]) == Serialize(frames[k])
  {
    hide Serialize, Hex, Pad4, MatchFrame, AllHex, Unhex, Wrap32, FrameLine, Filter, Raw, Lines, Records;
    if |frames| <= 9999 {
      var records := RecordsOf(frames);
      forall k | 0 <= k < |frames|
        ensures MatchFrame(Lines(frames)[k]) == Some(records[k])
      {
        PrintedRecord(frames[k], k);
      }
      RecordsAreMatches(lines, records);
      forall k | 0 <= k < |frames|
        ensures records[k].index == Pad4(k + 1) && Raw(records[k]) == Serialize(frames[k])
      {
        PrintedRecord(frames[k], k);
      }
    } else {
      SmallIndex(9999);
      MatchOfFrameLine(10000, Serialize(frames[9999]));
      var line := Lines(frames)[9999];
      assert line == FrameLine(10000, Serialize(frames[9999])) && MatchFrame(line).None?;
      if Records(lines).Some? {
        RecordsAreMatches(lines, Records(lines).value);
      }
    }
  }

  function RecordsOf(frames: seq<TelemetryFrame>): (records: seq<Record>)
    requires |frames| <= 9999
    ensures |records| == |frames| && forall k :: 0 <= k < |frames| ==> records[k] == RecordOf(frames[k], k)
  {
    forall k | 0 <= k < |frames| ensures Readable(RecordOf(frames[k], k)) {
      PrintedRecord(frames[k], k);
    }
    seq(|frames|, k requires 0 <= k < |frames| => RecordOf(frames[k], k))
  }

  // ----- The frame checks

  ghost predicate IsTelemetry(frames: seq<TelemetryFrame>) {
    |frames| == EXPECTED_FRAME_COUNT && forall k :: 0 <= k < |frames| ==> IsSensorFrame(frames[k], k)
  }

  lemma TelemetryPasses(lines: seq<string>, frames: seq<TelemetryFrame>)
    requires IsTelemetry(frames) && Filter(IsFrameLine, lines) == Lines(frames)
    ensures FrameChecksPass(lines)
  {
    hide Serialize, Pad4, Records, Raw, Filter, Lines, HeaderIsValid, SequenceAndCrcAreValid, Deserialize;
    PrintedRecords(lines, frames);
    var records := Records(lines).value;
    forall k | 0 <= k < |records|
      ensures HeaderIsValid(Raw(records[k])) && SequenceAndCrcAreValid(Raw(records[k]), k)
    {
      assert IsSensorFrame(frames[k], k);
      SerializeThenDeserialize(frames[k]);
      ChecksAgreeWithDecoder(Raw(records[k]), k);
    }
  }

  function DecodedFrame(record: Record): TelemetryFrame {
    Fields(Raw(record))
  }

  /** What a passing record says is what some sensor frame prints. */
  lemma PassingRecord(line: string, record: Record, k: nat)
    requires k < EXPECTED_FRAME_COUNT && MatchFrame(line) == Some(record) && record.index == Pad4(k + 1)
    requires HeaderIsValid(Raw(record)) && SequenceAndCrcAreValid(Raw(record), k)
    ensures var frame := DecodedFrame(record);
            IsSensorFrame(frame, k) && line == FrameLine(Wrap32(k + 1), Serialize(frame))
  {
    hide MatchFrame, AllHex, Unhex, Wrap32, Serialize, Deserialize, Hex, Pad4, Fields;
    hide HeaderIsValid, SequenceAndCrcAreValid;
    ChecksAgreeWithDecoder(Raw(record), k);
    DecoderGivesFields(Raw(record));
    DeserializeThenSerialize(Raw(record));
    HexOfUnhex(record.encoded);
    TextOfMatch(line);
    SmallIndex(k);
  }

  lemma DecoderGivesFields(raw: seq<byte>)
    requires |raw| == FRAME_SIZE
    ensures Deserialize(raw).frame.Some? ==> Deserialize(raw).frame.value == Fields(raw)
  {
    hide Fields;
  }

  function DecodedFrames(records: seq<Record>): (frames: seq<TelemetryFrame>)
    ensures |frames| == |records| && forall k :: 0 <= k < |records| ==> frames[k] == DecodedFrame(records[k])
  {
    seq(|records|, k requires 0 <= k < |records| => DecodedFrame(records[k]))
  }

  lemma PassingDecodes(lines: seq<string>)
    requires FrameChecksPass(lines)
    ensures var frames := DecodedFrames(Records(lines).value);
            IsTelemetry(frames) && Filter(IsFrameLine, lines) == Lines(frames)
  {
    hide Serialize, Pad4, Records, Raw, Filter, Lines, HeaderIsValid, SequenceAndCrcAreValid;
    hide MatchFrame, DecodedFrame, FrameLine, Wrap32, IsSensorFrame;
    var records := Records(lines).value;
    RecordsAreMatches(lines, records);
    var kept, frames := Filter(IsFrameLine, lines), DecodedFrames(records);
    forall k | 0 <= k < |records|
      ensures IsSensorFrame(frames[k], k) && kept[k] == FrameLine(Wrap32(k + 1), Serialize(frames[k]))
    {
      PassingRecord(kept[k], records[k], k);
    }
  }

  /**
   The frame checks accept a capture exactly when its frame lines are what the transmitter prints for some eight supported
   frames numbered from 1000.
   */
  lemma FrameChecksMeaning(lines: seq<string>)
    ensures FrameChecksPass(lines) <==>
            exists frames :: IsTelemetry(frames) && Filter(IsFrameLine, lines) == Lines(frames)
  {
    hide FrameChecksPass, IsTelemetry, Filter, Lines;
    if FrameChecksPass(lines) {
      PassingDecodes(lines);
    }
    if frames :| IsTelemetry(frames) && Filter(IsFrameLine, lines) == Lines(frames) {
      TelemetryPasses(lines, frames);
    }
  }

  // ----- The summary and the closing line

  /** Where the last controlled line is. */
  lemma {:induction false} LastControlled(lines: seq<string>) returns (q: nat)
    requires |Filter(IsControlled, lines)| > 0
    ensures q < |lines|
    ensures lines[q] == Filter(IsControlled, lines)[|Filter(IsControlled, lines)| - 1]
    ensures forall k :: q < k < |lines| ==> !IsControlled(lines[k])
    decreases |lines|
  {
    hide IsControlled;
    var n: nat := |lines| - 1;
    if IsControlled(lines[n]) {
      q := n;
    } else {
      q := LastControlled(lines[..n]);
    }
  }

  /** With one closing line there is no second position of it. */
  lemma {:induction false} OneDonePosition(lines: seq<string>, i: nat, j: nat)
    requires i < j < |lines| && IsDone(lines[i]) && IsDone(lines[j])
    ensures |Filter(IsDone, lines)| >= 2
    decreases |lines|
  {
    hide IsDone;
    var init := lines[..|lines| - 1];
    if j < |lines| - 1 {
      OneDonePosition(init, i, j);
    } else {
      DoneCounted(init, i);
    }
  }

  lemma {:induction false} DoneCounted(lines: seq<string>, i: nat)
    requires i < |lines| && IsDone(lines[i])
    ensures |Filter(IsDone, lines)| >= 1
    decreases |lines|
  {
    hide IsDone;
    if i < |lines| - 1 {
      DoneCounted(lines[..|lines| - 1], i);
    }
  }

  /** The search for records after the closing line is redundant: the other two conditions already imply it. */
  lemma DoneMeaning(lines: seq<string>)
    ensures DonePasses(lines) <==>
            var controlled := Filter(IsControlled, lines);
            && |Filter(IsDone, lines)| == 1
            && |controlled| > 0 && controlled[|controlled| - 1] == DONE
  {
    var controlled := Filter(IsControlled, lines);
    if |Filter(IsDone, lines)| == 1 && |controlled| > 0 && controlled[|controlled| - 1] == DONE {
      var q := LastControlled(lines);
      var p := DonePosition(lines);
      assert IsDone(lines[q]);
      hide IsDone, IsControlled, IsFrameLine, Filter, DonePosition;
      if p < q {
        OneDonePosition(lines, p, q);
      }
      forall k | p < k < |lines|
        ensures !IsFrameLine(lines[k])
      {
        KindsAreControlled(lines[k]);
      }
    }
  }

  lemma {:induction false} FilterSingle(p: string -> bool, lines: seq<string>, line: string) returns (k: nat)
    requires Filter(p, lines) == [line]
    ensures k < |lines| && lines[k] == line && p(line)
    ensures forall j :: 0 <= j < |lines| && j != k ==> !p(lines[j])
    decreases |lines|
  {
    var n: nat := |lines| - 1;
    if p(lines[n]) {
      k := n;
      assert Filter(p, lines[..n]) + [lines[n]] == [line];
      assert (Filter(p, lines[..n]) + [lines[n]])[|Filter(p, lines[..n])|] == lines[n];
      FilterEmpty(p, lines[..n]);
    } else {
      k := FilterSingle(p, lines[..n], line);
    }
  }

  lemma {:induction false} FilterEmpty(p: string -> bool, lines: seq<string>)
    requires Filter(p, lines) == []
    ensures forall j :: 0 <= j < |lines| ==> !p(lines[j])
    decreases |lines|
  {
    if |lines| > 0 {
      FilterEmpty(p, lines[..|lines| - 1]);
    }
  }

  /** There is one line `k` that starts as a summary does, and it is the expected text. */
  ghost predicate OnlySummary(lines: seq<string>, k: nat) {
    && k < |lines|
    && lines[k] == "TLFIRMWARE SUMMARY " + ("produced=" + "8" + " transmitted=" + "8" + " queue_errors=" + "0")
    && forall j :: 0 <= j < |lines| && j != k ==> !("TLFIRMWARE SUMMARY" <= lines[j])
  }

  /** The summary check demands one summary line, and its whole text. */
  lemma SummaryMeaning(lines: seq<string>)
    ensures SummaryPasses(lines) <==> exists k :: OnlySummary(lines, k)
  {
    if SummaryPasses(lines) {
      var k := FilterSingle(IsSummaryLine, lines, SUMMARY);
      assert OnlySummary(lines, k);
    }
    if k: nat :| OnlySummary(lines, k) {
      SummaryIsSummaryLine();
      OthersAreNot(lines, k, lines[..k], lines[k + 1..]);
      FilterAround(IsSummaryLine, lines, k, lines[..k], lines[k + 1..]);
    }
  }

  lemma FilterAround(p: string -> bool, lines: seq<string>, k: nat, before: seq<string>, after: seq<string>)
    requires k < |lines| && p(lines[k])
    requires before == lines[..k] && (forall j :: 0 <= j < |before| ==> !p(before[j]))
    requires after == lines[k + 1..] && (forall j :: 0 <= j < |after| ==> !p(after[j]))
    ensures Filter(p, lines) == [lines[k]]
  {
    hide Filter;
    assert lines == before + ([lines[k]] + after);
    FilterConcat(p, before, [lines[k]] + after);
    FilterConcat(p, [lines[k]], after);
    FilterOne(p, lines[k]);
    FilterNone(p, before);
    FilterNone(p, after);
  }

  lemma SummaryIsSummaryLine()
    ensures IsSummaryLine(SUMMARY)
    ensures SUMMARY == "TLFIRMWARE SUMMARY " + ("produced=" + "8" + " transmitted=" + "8" + " queue_errors=" + "0")
  {
    var tag := "TLFIRMWARE SUMMARY ";
    assert tag[..18] == "TLFIRMWARE SUMMARY" && SUMMARY[..19] == tag && SUMMARY[..18] == tag[..18];
  }

  lemma OthersAreNot(lines: seq<string>, k: nat, before: seq<string>, after: seq<string>)
    requires OnlySummary(lines, k) && before == lines[..k] && after == lines[k + 1..]
    ensures forall j :: 0 <= j < |before| ==> !IsSummaryLine(before[j])
    ensures forall j :: 0 <= j < |after| ==> !IsSummaryLine(after[j])
  {
    forall j | 0 <= j < |after|
      ensures !IsSummaryLine(after[j])
    {
      assert after[j] == lines[k + 1 + j];
    }
  }

  /** Lines that are not the firmware's, anywhere in the capture, do not matter. */
  lemma ControlledLinesDecide(lines: seq<string>)
    ensures CapturePasses(lines) <==> CapturePasses(Filter(IsControlled, lines))
  {
    hide IsDone, IsControlled, IsFrameLine, IsSummaryLine, Filter, FrameChecksPass, DonePasses;
    var controlled := Filter(IsControlled, lines);
    forall line
      ensures IsFrameLine(line) || IsSummaryLine(line) || IsDone(line) ==> IsControlled(line)
    {
      KindsAreControlled(line);
    }
    FilterFilter(IsFrameLine, IsControlled, lines);
    FilterFilter(IsSummaryLine, IsControlled, lines);
    FilterFilter(IsDone, IsControlled, lines);
    FilterFilter(IsControlled, IsControlled, lines);
    FrameChecksMeaning(lines);
    FrameChecksMeaning(controlled);
    DoneMeaning(lines);
    DoneMeaning(controlled);
  }

  // ----- Complete runs

  lemma TrailerKinds(m: FirmwareMetricsSnapshot)
    ensures var line := "TLFIRMWARE SUMMARY " + Totals(m);
            IsSummaryLine(line) && !IsFrameLine(line) && !IsDone(line) && IsControlled(line)
    ensures var line := "TLFIRMWARE ERROR " + Totals(m);
            !IsSummaryLine(line) && !IsFrameLine(line) && !IsDone(line) && IsControlled(line)
    ensures !IsSummaryLine(DONE_LINE) && !IsFrameLine(DONE_LINE) && IsDone(DONE_LINE) && IsControlled(DONE_LINE)
  {
    hide Totals;
    var s, e := "TLFIRMWARE SUMMARY " + Totals(m), "TLFIRMWARE ERROR " + Totals(m);
    assert s[3] == 'I' && e[3] == 'I' && DONE_LINE[3] == 'I' && "TLFRAME "[3] == 'R';
    assert s[11] == 'S' && e[11] == 'E' && DONE_LINE[11] == 'D' && "TLFIRMWARE SUMMARY"[11] == 'S';
    assert DONE_LINE[..10] == "TLFIRMWARE" && s[..10] == "TLFIRMWARE" && e[..10] == "TLFIRMWARE";
  }

  lemma FilterTrailer(succeeded: bool, m: FirmwareMetricsSnapshot)
    ensures var trailer := Trailer(succeeded, m);
            && Filter(IsFrameLine, trailer) == []
            && Filter(IsSummaryLine, trailer) == (if succeeded then ["TLFIRMWARE SUMMARY " + Totals(m)] else [])
            && Filter(IsDone, trailer) == (if succeeded then [DONE_LINE] else [])
            && Filter(IsControlled, trailer) == trailer
  {
    TrailerKinds(m);
    hide Totals, IsDone, IsFrameLine, IsSummaryLine, IsControlled, Filter;
    FilterTwo(IsFrameLine, "TLFIRMWARE SUMMARY " + Totals(m), DONE_LINE);
    FilterTwo(IsSummaryLine, "TLFIRMWARE SUMMARY " + Totals(m), DONE_LINE);
    FilterTwo(IsDone, "TLFIRMWARE SUMMARY " + Totals(m), DONE_LINE);
    FilterTwo(IsControlled, "TLFIRMWARE SUMMARY " + Totals(m), DONE_LINE);
    FilterOne(IsFrameLine, "TLFIRMWARE ERROR " + Totals(m));
    FilterOne(IsSummaryLine, "TLFIRMWARE ERROR " + Totals(m));
    FilterOne(IsDone, "TLFIRMWARE ERROR " + Totals(m));
    FilterOne(IsControlled, "TLFIRMWARE ERROR " + Totals(m));
  }

  lemma FilterOne(p: string -> bool, line: string)
    ensures Filter(p, [line]) == if p(line) then [line] else []
  {
    assert [line][..0] == [];
  }

  lemma FilterTwo(p: string -> bool, a: string, b: string)
    ensures Filter(p, [a, b]) == (if p(a) then [a] else []) + (if p(b) then [b] else [])
  {
    assert [a, b] == [a] + [b];
    FilterConcat(p, [a], [b]);
    FilterOne(p, a);
    FilterOne(p, b);
  }

  lemma FilterOutput(c: Config)
    ensures var output, m := CompleteOutput(c), FinalMetrics(|c.frames|);
            var succeeded := |c.frames| == c.expected;
            && Filter(IsFrameLine, output) == Lines(c.frames)
            && Filter(IsSummaryLine, output) == (if succeeded then ["TLFIRMWARE SUMMARY " + Totals(m)] else [])
            && Filter(IsDone, output) == (if succeeded then [DONE_LINE] else [])
            && Filter(IsControlled, output) == output
  {
    hide Totals, IsDone, IsFrameLine, IsSummaryLine, IsControlled, Filter;
    hide FinalMetrics, Trailer, Serialize, FrameLine, Lines;
    var lines := Lines(c.frames);
    var m, succeeded := FinalMetrics(|c.frames|), |c.frames| == c.expected;
    FilterTrailer(succeeded, m);
    FilterConcat(IsFrameLine, lines, Trailer(succeeded, m));
    FilterConcat(IsSummaryLine, lines, Trailer(succeeded, m));
    FilterConcat(IsDone, lines, Trailer(succeeded, m));
    FilterConcat(IsControlled, lines, Trailer(succeeded, m));
    forall k | 0 <= k < |lines|
      ensures IsFrameLine(lines[k]) && !IsSummaryLine(lines[k]) && !IsDone(lines[k]) && IsControlled(lines[k])
    {
      FrameLineKind(Wrap32(k + 1), Serialize(c.frames[k]));
      KindsAreControlled(lines[k]);
    }
    FilterAll(IsFrameLine, lines);
    FilterNone(IsSummaryLine, lines);
    FilterNone(IsDone, lines);
    FilterAll(IsControlled, lines);
  }

  lemma TotalsOfEight()
    ensures FinalMetrics(8) == FirmwareMetricsSnapshot(8, 8, 8, 8, 0, 0, 1, 1)
    ensures (0 + 0) % TWO_TO_THE_64 == 0
    ensures Decimal(8) == "8" && Decimal(0) == "0"
  {
  }

  lemma SummaryOfEight()
    ensures "TLFIRMWARE SUMMARY " + Totals(FinalMetrics(8)) == SUMMARY
  {
    TotalsOfEight();
    hide Decimal, FinalMetrics;
  }

  /** The outcome for a run's own lines. */
  lemma OutputPasses(samples: seq<TelemetrySample>, capacity: nat, expected: nat)
    ensures CapturePasses(CompleteOutput(Config(FramesFrom(samples), capacity, expected))) <==>
            |samples| == EXPECTED_FRAME_COUNT && expected == EXPECTED_FRAME_COUNT
  {
    hide Totals, IsDone, IsFrameLine, IsSummaryLine, IsControlled, Filter, FinalMetrics, Serialize, FrameLine, Wrap32;
    hide FrameChecksPass, DonePasses, FrameAt;
    var frames := FramesFrom(samples);
    var c := Config(frames, capacity, expected);
    var output := CompleteOutput(c);
    FilterOutput(c);
    FrameChecksMeaning(output);
    DoneMeaning(output);
    SummaryOfEight();
    if |frames| == EXPECTED_FRAME_COUNT {
      SensorFramesAreTelemetry(samples);
    }
  }

  lemma SensorFramesAreTelemetry(samples: seq<TelemetrySample>)
    requires |samples| == EXPECTED_FRAME_COUNT
    ensures IsTelemetry(FramesFrom(samples))
  {
    hide FrameAt, IsSensorFrame;
    var frames := FramesFrom(samples);
    forall k | 0 <= k < |frames|
      ensures IsSensorFrame(frames[k], k)
    {
      EarlyFrame(samples, k);
    }
  }

  lemma EarlyFrame(samples: seq<TelemetrySample>, k: nat)
    requires k < |samples| && k < EXPECTED_FRAME_COUNT
    ensures IsSensorFrame(FrameAt(samples, k), k)
  {
    hide SequenceWord, TimestampWord;
    SequenceNumber(k);
    SmallSequence(k, SequenceWord(k) as int);
  }

  lemma SmallSequence(k: nat, n: int)
    requires k < EXPECTED_FRAME_COUNT && n == (1000 + k) % TWO_TO_THE_32
    ensures n == 1000 + k
  {
  }

  /**
   A capture that holds the output of a complete run, among any other lines, passes exactly when the run was built for and
   produced eight samples, whatever their values.
   */
  lemma CompleteRunPasses(lines: seq<string>, samples: seq<TelemetrySample>, capacity: nat, expected: nat)
    requires Filter(IsControlled, lines) == CompleteOutput(Config(FramesFrom(samples), capacity, expected))
    ensures CapturePasses(lines) <==> |samples| == EXPECTED_FRAME_COUNT && expected == EXPECTED_FRAME_COUNT
  {
    hide *;
    ControlledLinesDecide(lines);
    OutputPasses(samples, capacity, expected);
  }

  // ----- From any interleaving of the firmware to the validator

  /** A capture of what an interleaving has written when nothing can go on, among lines of other origin. */
  ghost predicate CapturesRun(c: Config, run: seq<State>, k: nat, lines: seq<string>) {
    && c.capacity >= 1 && |c.frames| < TWO_TO_THE_64
    && IsRun(c, run) && k < |run| && Blocked(c, run[k])
    && Filter(IsControlled, lines) == Written(run[k])
  }

  lemma CapturedOutput(c: Config, run: seq<State>, k: nat, lines: seq<string>)
    requires CapturesRun(c, run, k, lines)
    ensures Filter(IsControlled, lines) == CompleteOutput(c)
  {
    hide IsRun, Filter, Blocked, CompleteOutput;
    RunOutcome(c, run, k);
  }

  /** Whatever the samples and the interleaving, the capture passes exactly for eight samples made and eight expected. */
  lemma EveryRunPassesIff(
      samples: seq<TelemetrySample>, capacity: nat, expected: nat, run: seq<State>, k: nat, lines: seq<string>)
    requires CapturesRun(Config(FramesFrom(samples), capacity, expected), run, k, lines)
    ensures CapturePasses(lines) <==> |samples| == EXPECTED_FRAME_COUNT && expected == EXPECTED_FRAME_COUNT
  {
    hide *;
    CapturedOutput(Config(FramesFrom(samples), capacity, expected), run, k, lines);
    CompleteRunPasses(lines, samples, capacity, expected);
  }

  /** The documented table passes. */
  lemma EveryRunOfTheTablePasses(capacity: nat, run: seq<State>, k: nat, lines: seq<string>)
    requires CapturesRun(Config(FramesFrom(SAMPLES), capacity, EXPECTED_FRAME_COUNT), run, k, lines)
    ensures CapturePasses(lines)
  {
    assert |SAMPLES| == 8;
    hide CapturesRun, CapturePasses, SAMPLES;
    EveryRunPassesIff(SAMPLES, capacity, EXPECTED_FRAME_COUNT, run, k, lines);
  }

  /** Every record is readable, and record `k` decodes to the frame the sensor made from sample `k`. */
  ghost predicate RecordsDecode(lines: seq<string>, samples: seq<TelemetrySample>) {
    Records(lines).Some? &&
    var records := Records(lines).value;
    |records| == |samples| &&
    forall k :: 0 <= k < |samples| ==>
      && ParseNat(records[k].index) == Some(k + 1)
      && Deserialize(Raw(records[k])).frame.Some?
      && IsFrameOf(Deserialize(Raw(records[k])).frame.value, samples, k)
  }

  /**
   Of a complete run's records, the k-th decodes to exactly the k-th frame the sensor made, in every run short enough for
   four-digit indices.
   */
  lemma RecordsDecodeToSensorFrames(lines: seq<string>, samples: seq<TelemetrySample>, capacity: nat, expected: nat)
    requires Filter(IsControlled, lines) == CompleteOutput(Config(FramesFrom(samples), capacity, expected))
    ensures Records(lines).Some? <==> |samples| <= 9999
    ensures |samples| <= 9999 ==> RecordsDecode(lines, samples)
  {
    hide IsFrameLine, IsControlled, Filter, CompleteOutput, Records, Raw, Serialize, Deserialize, FrameAt, Pad4, Lines;
    hide IsFrameOf, ParseNat;
    var frames := FramesFrom(samples);
    forall line
      ensures IsFrameLine(line) ==> IsControlled(line)
    {
      KindsAreControlled(line);
    }
    FilterFilter(IsFrameLine, IsControlled, lines);
    FilterOutput(Config(frames, capacity, expected));
    PrintedRecords(lines, frames);
    forall k | 0 <= k < |samples|
      ensures Deserialize(Serialize(frames[k])).frame == Some(FrameAt(samples, k))
      ensures IsFrameOf(FrameAt(samples, k), samples, k) && ParseNat(Pad4(k + 1)) == Some(k + 1)
    {
      SensorFrameRoundTrip(samples, k);
      FrameAtMeaning(samples, k);
      IndexReadsBack(k + 1);
    }
  }

  /** The same from any interleaving: what was captured of it decodes to the sensor's frames exactly up to 9999 samples. */
  lemma EveryRunDecodesIff(
      samples: seq<TelemetrySample>, capacity: nat, expected: nat, run: seq<State>, k: nat, lines: seq<string>)
    requires CapturesRun(Config(FramesFrom(samples), capacity, expected), run, k, lines)
    ensures RecordsDecode(lines, samples) <==> |samples| <= 9999
  {
    CapturedOutput(Config(FramesFrom(samples), capacity, expected), run, k, lines);
    hide CapturesRun, Filter, CompleteOutput, Records, Raw, Deserialize, IsFrameOf, ParseNat;
    RecordsDecodeToSensorFrames(lines, samples, capacity, expected);
  }
}
