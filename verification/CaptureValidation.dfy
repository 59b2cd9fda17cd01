/** The Python validator of captured firmware output: its own CRC, its line pattern and its checks. */
module CaptureValidation {
  import opened Words
  import opened Crc32
  import opened CrcAlgebra
  import opened Protocol
  import opened HexFormatter
  import opened FirmwarePipeline
  import opened Numbers

  // ----- The second CRC, in 64-bit words: wider than the register, as the integers of the source are

  const CRC_POLYNOMIAL: bv64 := 0xEDB8_8320
  const CRC_INITIAL: bv64 := 0xFFFF_FFFF
  const CRC_FINAL_XOR: bv64 := 0xFFFF_FFFF

  /** One turn of the inner loop: without the masks, the negation and the shift would not stay within 32 bits. */
  function WideBitStep(crc: bv64): bv64 {
    var mask := (0 - (crc & 1)) & 0xFFFF_FFFF;
    ((crc >> 1) ^ (CRC_POLYNOMIAL & mask)) & 0xFFFF_FFFF
  }

  function Widen(crc: bv32): bv64 {
    crc as bv64
  }

  lemma WideStepMatches(crc: bv32)
    ensures WideBitStep(Widen(crc)) == Widen(BitStep(crc))
  {
    BitStepBranches(crc);
    LowBitIsBit(crc);
    hide BitStep, WideBitStep, Widen;
    if crc & 1 == 0 {
      WideEvenStep(crc);
    } else {
      WideOddStep(crc);
    }
  }

  lemma LowBitIsBit(crc: bv32)
    ensures crc & 1 == 0 || crc & 1 == 1
  {
  }

  lemma WideEvenStep(crc: bv32)
    requires crc & 1 == 0
    ensures WideBitStep(Widen(crc)) == Widen(crc >> 1)
  {
  }

  lemma WideOddStep(crc: bv32)
    requires crc & 1 == 1
    ensures WideBitStep(Widen(crc)) == Widen((crc >> 1) ^ POLYNOMIAL)
  {
  }

  function XorByte(crc: bv64, b: byte): bv64 {
    crc ^ (b as bv64)
  }

  lemma WideXorMatches(crc: bv32, b: byte)
    ensures XorByte(Widen(crc), b) == Widen(Xor32(crc, b as bv32))
    ensures ByteStep(crc, b) == BitSteps(Xor32(crc, b as bv32), 8)
  {
    hide BitSteps;
  }

  lemma WideEnds(crc: bv32)
    ensures Widen(INITIAL_VALUE) == CRC_INITIAL
    ensures Widen(crc) ^ CRC_FINAL_XOR == Widen(Xor32(crc, FINAL_XOR))
  {
  }

  /** Both implementations compute one value on every input. */
  method CalculateCrc32In64Bits(data: seq<byte>) returns (r: bv64)
    ensures r == Widen(Crc(data))
  {
    hide Widen, BitStep, WideBitStep, ByteStep, Register, Xor32, XorByte;
    var crc := CRC_INITIAL;
    ghost var register := INITIAL_VALUE;
    WideEnds(register);
    RegisterOfNothing(INITIAL_VALUE, data);
    for i := 0 to |data|
      invariant crc == Widen(register) && register == Register(INITIAL_VALUE, data[..i])
    {
      ghost var before := register;
      WideXorMatches(register, data[i]);
      crc := XorByte(crc, data[i]);
      register := Xor32(register, data[i] as bv32);
      for bit := 0 to 8
        invariant crc == Widen(register) && BitSteps(register, 8 - bit) == ByteStep(before, data[i])
      {
        WideStepMatches(register);
        crc := WideBitStep(crc);
        register := BitStep(register);
      }
      RegisterSnoc(INITIAL_VALUE, data[..i], data[i]);
      assert data[..i + 1] == data[..i] + [data[i]];
    }
    assert data[..|data|] == data;
    WideEnds(register);
    CrcIsFinalRegister(data);
    return crc ^ CRC_FINAL_XOR;
  }

  lemma CrcIsFinalRegister(data: seq<byte>)
    ensures Crc(data) == Xor32(Register(INITIAL_VALUE, data), FINAL_XOR)
  {
    hide Register;
  }

  // ----- The lines of a capture

  const SUMMARY: string :=
    "TLFIRMWARE SUMMARY " + ("produced=" + "8" + " transmitted=" + "8" + " queue_errors=" + "0")
  const DONE: string := "TLFIRMWARE DONE"
  const EXPECTED_FRAME_COUNT: nat := 8

  predicate IsFrameLine(line: string) {
    "TLFRAME " <= line
  }

  predicate IsSummaryLine(line: string) {
    "TLFIRMWARE SUMMARY" <= line
  }

  predicate IsDone(line: string) {
    line == DONE
  }

  predicate IsControlled(line: string) {
    "TLFRAME" <= line || "TLFIRMWARE" <= line
  }

  /** A list comprehension's condition. */
  function Filter(p: string -> bool, lines: seq<string>): (kept: seq<string>)
    ensures forall k :: 0 <= k < |kept| ==> p(kept[k]) && kept[k] in lines
  {
    if |lines| == 0 then []
    else
      var kept := Filter(p, lines[..|lines| - 1]);
      if p(lines[|lines| - 1]) then kept + [lines[|lines| - 1]] else kept
  }

  // ----- The records

  /** The two groups of a match. */
  datatype Groups = Groups(index: string, encoded: string)

  predicate Readable(record: Groups) {
    |record.index| == 4 && |record.encoded| == 2 * FRAME_SIZE && AllHex(record.encoded)
  }

  type Record = r: Groups | Readable(r) witness Groups("0000", seq(2 * FRAME_SIZE, _ => '0'))

  predicate IsDecimalDigit(c: char) {
    '0' <= c <= '9'
  }

  /** `^TLFRAME ([0-9]{4}) ([0-9A-F]{68})$` */
  function MatchFrame(line: string): Option<Record> {
    if |line| == 81 && line[..8] == "TLFRAME " && (forall i :: 8 <= i < 12 ==> IsDecimalDigit(line[i])) &&
       line[12] == ' ' && AllHex(line[13..])
    then Some(Groups(line[8..12], line[13..]))
    else None
  }

  /** Every frame line as a record, or nothing when one of them is malformed. */
  function Records(lines: seq<string>): Option<seq<Record>> {
    var kept := Filter(IsFrameLine, lines);
    if forall k :: 0 <= k < |kept| ==> MatchFrame(kept[k]).Some?
    then Some(seq(|kept|, k requires 0 <= k < |kept| && MatchFrame(kept[k]).Some? => MatchFrame(kept[k]).value))
    else None
  }

  lemma {:induction false} FilterConcat(p: string -> bool, a: seq<string>, b: seq<string>)
    ensures Filter(p, a + b) == Filter(p, a) + Filter(p, b)
    decreases |b|
  {
    if |b| == 0 {
      assert a + b == a;
    } else {
      var init := b[..|b| - 1];
      assert (a + b)[..|a + b| - 1] == a + init;
      FilterConcat(p, a, init);
    }
  }

  /** `records` are the matches of the frame lines, in order. */
  ghost predicate AreMatches(kept: seq<string>, records: seq<Record>) {
    |records| == |kept| && forall k :: 0 <= k < |kept| ==> MatchFrame(kept[k]) == Some(records[k])
  }

  lemma RecordsAreMatches(lines: seq<string>, records: seq<Record>)
    ensures Records(lines) == Some(records) <==> AreMatches(Filter(IsFrameLine, lines), records)
  {
    hide MatchFrame, IsFrameLine, Filter;
    var kept := Filter(IsFrameLine, lines);
    if AreMatches(kept, records) {
      assert Records(lines).value == records;
    }
  }

  lemma MalformedMeansNone(lines: seq<string>, i: nat)
    requires i < |lines| && IsFrameLine(lines[i]) && MatchFrame(lines[i]).None?
    ensures Records(lines).None?
  {
    hide MatchFrame, IsFrameLine;
    assert lines == lines[..i + 1] + lines[i + 1..] && lines[..i + 1][..i] == lines[..i];
    FilterConcat(IsFrameLine, lines[..i + 1], lines[i + 1..]);
    var k := |Filter(IsFrameLine, lines[..i])|;
    assert Filter(IsFrameLine, lines)[k] == lines[i];
  }

  method ReadRecords(lines: seq<string>) returns (frames: Option<seq<Record>>)
    ensures frames == Records(lines)
  {
    hide MatchFrame, IsFrameLine, Records;
    var read: seq<Record> := [];
    for i := 0 to |lines|
      invariant AreMatches(Filter(IsFrameLine, lines[..i]), read)
    {
      assert lines[..i + 1][..i] == lines[..i];
      if IsFrameLine(lines[i]) {
        var matched := MatchFrame(lines[i]);
        if matched.None? {
          MalformedMeansNone(lines, i);
          return None;
        }
        read := read + [matched.value];
      }
    }
    assert lines[..|lines|] == lines;
    RecordsAreMatches(lines, read);
    return Some(read);
  }

  // ----- The checks

  function Raw(record: Record): (raw: seq<byte>)
    ensures |raw| == FRAME_SIZE
  {
    Unhex(record.encoded)
  }

  /** `int.from_bytes(…, "big")` is `BigEndian`. */
  predicate HeaderIsValid(raw: seq<byte>)
    requires |raw| == FRAME_SIZE
  {
    raw[0..2] == [0x54, 0x4C] && raw[2] == 1 && raw[3] == 1 && BigEndian(raw[4..6]) == 12
  }

  predicate SequenceAndCrcAreValid(raw: seq<byte>, offset: nat)
    requires |raw| == FRAME_SIZE && offset < EXPECTED_FRAME_COUNT
  {
    BigEndian(raw[6..10]) == 1000 + offset && Crc(raw[..30]) as int == BigEndian(raw[30..])
  }

  ghost predicate HeadersPass(records: seq<Record>)
  {
    forall k :: 0 <= k < |records| ==> HeaderIsValid(Raw(records[k]))
  }

  ghost predicate IndicesPass(records: seq<Record>) {
    |records| == EXPECTED_FRAME_COUNT && forall k :: 0 <= k < |records| ==> records[k].index == Pad4(k + 1)
  }

  ghost predicate SequencesAndCrcPass(records: seq<Record>)
    requires |records| == EXPECTED_FRAME_COUNT
  {
    forall k :: 0 <= k < |records| ==> SequenceAndCrcAreValid(Raw(records[k]), k)
  }

  /** The count, header and index/sequence/CRC checks together. */
  ghost predicate FrameChecksPass(lines: seq<string>) {
    Records(lines).Some? &&
    var records := Records(lines).value;
    HeadersPass(records) && IndicesPass(records) && SequencesAndCrcPass(records)
  }

  predicate SummaryPasses(lines: seq<string>) {
    Filter(IsSummaryLine, lines) == [SUMMARY]
  }

  /** The first position of the closing line. */
  function DonePosition(lines: seq<string>): (p: nat)
    ensures p <= |lines|
    ensures p < |lines| ==> IsDone(lines[p])
    ensures forall k :: 0 <= k < p ==> !IsDone(lines[k])
  {
    if |lines| == 0 || IsDone(lines[0]) then 0 else 1 + DonePosition(lines[1..])
  }

  predicate DonePasses(lines: seq<string>) {
    && |Filter(IsDone, lines)| == 1
    && (forall k :: DonePosition(lines) < k < |lines| ==> !IsFrameLine(lines[k]))
    && var controlled := Filter(IsControlled, lines);
       |controlled| > 0 && controlled[|controlled| - 1] == DONE
  }

  ghost predicate CapturePasses(lines: seq<string>) {
    FrameChecksPass(lines) && SummaryPasses(lines) && DonePasses(lines)
  }

  datatype Verdict =
    | Passed
    | MalformedLine
    | WrongCount
    | InvalidHeader
    | UnexpectedIndices
    | SequenceOrCrcMismatch
    | UnexpectedSummary
    | UnexpectedDone

  method ValidateHeaders(records: seq<Record>) returns (ok: bool)
    ensures ok <==> HeadersPass(records)
  {
    hide AllHex, HeaderIsValid, Unhex;
    for k := 0 to |records|
      invariant forall j :: 0 <= j < k ==> HeaderIsValid(Raw(records[j]))
    {
      if !HeaderIsValid(Raw(records[k])) {
        return false;
      }
    }
    return true;
  }

  method ValidateIndices(records: seq<Record>) returns (ok: bool)
    ensures ok <==> IndicesPass(records)
  {
    hide Pad4;
    if |records| != EXPECTED_FRAME_COUNT {
      return false;
    }
    for k := 0 to |records|
      invariant forall j :: 0 <= j < k ==> records[j].index == Pad4(j + 1)
    {
      if records[k].index != Pad4(k + 1) {
        return false;
      }
    }
    return true;
  }

  lemma WideNumber(x: bv32)
    ensures Widen(x) as int == x as int
  {
    assert (x as bv64) as int == x as int;
  }

  method CheckSequenceAndCrc(raw: seq<byte>, offset: nat) returns (ok: bool)
    requires |raw| == FRAME_SIZE && offset < EXPECTED_FRAME_COUNT
    ensures ok <==> SequenceAndCrcAreValid(raw, offset)
  {
    hide Widen, Crc, BigEndian;
    var sequence := BigEndian(raw[6..10]);
    if sequence != 1000 + offset {
      return false;
    }
    var calculated := CalculateCrc32In64Bits(raw[..30]);
    WideNumber(Crc(raw[..30]));
    return calculated as int == BigEndian(raw[30..]);
  }

  method ValidateSequencesAndCrc(records: seq<Record>) returns (ok: bool)
    requires |records| == EXPECTED_FRAME_COUNT
    ensures ok <==> SequencesAndCrcPass(records)
  {
    hide AllHex, Unhex, SequenceAndCrcAreValid;
    for k := 0 to |records|
      invariant forall j :: 0 <= j < k ==> SequenceAndCrcAreValid(Raw(records[j]), j)
    {
      var valid := CheckSequenceAndCrc(Raw(records[k]), k);
      if !valid {
        return false;
      }
    }
    return true;
  }

  /** The facade, without its boot-banner and fault-marker checks. */
  method ValidateCapture(lines: seq<string>) returns (verdict: Verdict)
    ensures verdict == Passed <==> CapturePasses(lines)
    ensures verdict == MalformedLine <==> Records(lines).None?
    ensures Records(lines).Some? ==>
              var records := Records(lines).value;
              && (verdict == WrongCount <==> |records| != EXPECTED_FRAME_COUNT)
              && (verdict == InvalidHeader <==> |records| == EXPECTED_FRAME_COUNT && !HeadersPass(records))
              && (verdict == UnexpectedIndices <==>
                    |records| == EXPECTED_FRAME_COUNT && HeadersPass(records) && !IndicesPass(records))
              && (verdict == SequenceOrCrcMismatch <==>
                    HeadersPass(records) && IndicesPass(records) && !SequencesAndCrcPass(records))
    ensures verdict == UnexpectedSummary <==> FrameChecksPass(lines) && !SummaryPasses(lines)
  {
    hide Filter, MatchFrame, SummaryPasses, DonePasses, HeadersPass, SequencesAndCrcPass;
    var frames := ReadRecords(lines);
    if frames.None? {
      return MalformedLine;
    }
    var records := frames.value;
    if |records| != EXPECTED_FRAME_COUNT {
      return WrongCount;
    }
    var headers := ValidateHeaders(records);
    if !headers {
      return InvalidHeader;
    }
    var indices := ValidateIndices(records);
    if !indices {
      return UnexpectedIndices;
    }
    var contents := ValidateSequencesAndCrc(records);
    if !contents {
      return SequenceOrCrcMismatch;
    }
    if !SummaryPasses(lines) {
      return UnexpectedSummary;
    }
    if !DonePasses(lines) {
      return UnexpectedDone;
    }
    return Passed;
  }
}
