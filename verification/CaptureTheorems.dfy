/** What an accepted capture proves about the firmware, and which complete runs are accepted. */
module CaptureTheorems {
  import opened Words
  import opened Crc32
  import opened Protocol
  import opened ProtocolCodec
  import opened HexFormatter
  import opened Report
  import opened Numbers
  import opened ParseErrors
  import opened FirmwarePipeline
  import opened CaptureValidation

  // ----- A line and its record

  /** The index of a record has the four digits of the pattern exactly up to 9999. */
  lemma IndexDigits(n: nat)
    ensures |Pad4(n)| == 4 <==> n <= 9999
    ensures forall c :: c in Pad4(n) ==> IsDecimalDigit(c)
  {
    assert |Decimal(n)| == 1 <==> n < 10;
    assert |Decimal(n)| <= 2 <==> n < 100 by {
      assert |Decimal(n / 10)| == 1 <==> n / 10 < 10;
    }
    assert |Decimal(n)| <= 3 <==> n < 1000 by {
      assert |Decimal(n / 10 / 10)| == 1 <==> n / 10 / 10 < 10;
    }
    assert |Decimal(n)| <= 4 <==> n < 10000 by {
      assert |Decimal(n / 10 / 10 / 10)| == 1 <==> n / 10 / 10 / 10 < 10;
    }
  }

  lemma {:induction false} LeadingZero(s: string)
    requires ParseNat(s).Some?
    ensures ParseNat("0" + s) == ParseNat(s)
    decreases |s|
  {
    var t := "0" + s;
    if |s| == 1 {
      assert t[..1] == "0" && ParseNat("0") == Some(0);
    } else {
      assert t[..|t| - 1] == "0" + s[..|s| - 1];
      LeadingZero(s[..|s| - 1]);
    }
  }

  /** Padding does not change the number a record's index stands for, so no two indices look alike. */
  lemma IndexReadsBack(n: nat)
    ensures ParseNat(Pad4(n)) == Some(n)
  {
    hide Decimal, ParseNat;
    var d := Decimal(n);
    ParseOfDecimal(n);
    LeadingZero(d);
    LeadingZero("0" + d);
    LeadingZero("0" + ("0" + d));
    assert "0" + ("0" + d) == "00" + d && "0" + ("0" + ("0" + d)) == "000" + d;
  }

  function LineText(index: string, encoded: string): string {
    "TLFRAME " + index + " " + encoded
  }

  lemma TextOfMatch(line: string)
    ensures MatchFrame(line).Some? ==>
              line == LineText(MatchFrame(line).value.index, MatchFrame(line).value.encoded)
  {
    if MatchFrame(line).Some? {
      assert line == line[..8] + line[8..12] + [line[12]] + line[13..];
    }
  }

  lemma MatchOfText(index: string, encoded: string)
    requires |encoded| == 2 * FRAME_SIZE && AllHex(encoded)
    requires |index| >= 4 && forall c :: c in index ==> IsDecimalDigit(c)
    ensures MatchFrame(LineText(index, encoded)) == if |index| == 4 then Some(Groups(index, encoded)) else None
  {
    var line := LineText(index, encoded);
    if |index| == 4 {
      assert line[..8] == "TLFRAME " && line[8..12] == index && line[12] == ' ' && line[13..] == encoded;
      forall i | 8 <= i < 12
        ensures IsDecimalDigit(line[i])
      {
        assert line[i] == index[i - 8] && index[i - 8] in index;
      }
    }
  }

  /** What the transmitter prints is read back by the pattern, up to index 9999 and no further. */
  lemma MatchOfFrameLine(index: nat, bytes: seq<byte>)
    requires |bytes| == FRAME_SIZE
    ensures MatchFrame(FrameLine(index, bytes)) ==
            if index <= 9999 then Some(Groups(Pad4(index), Hex(bytes))) else None
    ensures FrameLine(index, bytes) == LineText(Pad4(index), Hex(bytes))
  {
    hide MatchFrame, Hex, Pad4, AllHex;
    IndexDigits(index);
    UnhexOfHex(bytes);
    LongEnough(index);
    MatchOfText(Pad4(index), Hex(bytes));
  }

  lemma LongEnough(n: nat)
    ensures |Pad4(n)| >= 4
  {
    hide Decimal;
  }

  /** Four digits are the index of exactly one number up to 9999. */
  lemma FourDigits(index: string) returns (n: nat)
    requires |index| == 4 && forall i :: 0 <= i < 4 ==> IsDecimalDigit(index[i])
    ensures n <= 9999 && Pad4(n) == index
  {
    hide Decimal, ParseNat;
    var k := if index[0] != '0' then 0 else if index[1] != '0' then 1 else if index[2] != '0' then 2 else 3;
    var s := index[k..];
    assert forall i :: 0 <= i < |s| ==> s[i] == index[k + i];
    DecimalOfParse(s);
    n := ParseNat(s).value;
    assert index == index[..k] + s;
    assert index[..k] == if k == 0 then "" else if k == 1 then "0" else if k == 2 then "00" else "000";
    IndexDigits(n);
  }

  /** The pattern matches exactly the lines that the transmitter can print with an index of four digits. */
  lemma MatchIffPrinted(line: string)
    ensures MatchFrame(line).Some? <==>
            exists n: nat, bytes: seq<byte> :: n <= 9999 && |bytes| == 34 && line == FrameLine(n, bytes)
  {
    hide Hex, Unhex, AllHex, Pad4, FrameLine;
    if MatchFrame(line).Some? {
      var record := MatchFrame(line).value;
      TextOfMatch(line);
      DigitsOfMatch(line);
      hide MatchFrame;
      var n := FourDigits(record.index);
      HexOfUnhex(record.encoded);
      MatchOfFrameLine(n, Unhex(record.encoded));
      assert line == FrameLine(n, Unhex(record.encoded));
    }
    if n: nat, bytes: seq<byte> :| n <= 9999 && |bytes| == 34 && line == FrameLine(n, bytes) {
      MatchOfFrameLine(n, bytes);
    }
  }

  lemma DigitsOfMatch(line: string)
    ensures MatchFrame(line).Some? ==>
              var index := MatchFrame(line).value.index;
              |index| == 4 && forall i :: 0 <= i < 4 ==> IsDecimalDigit(index[i])
  {
    if MatchFrame(line).Some? {
      assert forall i :: 0 <= i < 4 ==> line[8..12][i] == line[8 + i];
    }
  }

  /** The closing lines: their fixed words, and the three numbers that read back from them. */
  lemma TrailerReadsBack(succeeded: bool, m: FirmwareMetricsSnapshot) returns (a: string, b: string, c: string)
    ensures ParseNat(a) == Some(m.framesEnqueued) && ParseNat(b) == Some(m.framesTransmitted)
    ensures ParseNat(c) == Some((m.queuePushFailures + m.queuePopFailures) % 0x1_0000_0000_0000_0000)
    ensures var totals := "produced=" + a + " transmitted=" + b + " queue_errors=" + c;
            Trailer(succeeded, m) == if succeeded then ["TLFIRMWARE SUMMARY " + totals, "TLFIRMWARE DONE"]
                                     else ["TLFIRMWARE ERROR " + totals]
  {
    hide Decimal, ParseNat;
    a, b := Decimal(m.framesEnqueued), Decimal(m.framesTransmitted);
    c := Decimal((m.queuePushFailures + m.queuePopFailures) % TWO_TO_THE_64);
    ParseOfDecimal(m.framesEnqueued);
    ParseOfDecimal(m.framesTransmitted);
    ParseOfDecimal((m.queuePushFailures + m.queuePopFailures) % TWO_TO_THE_64);
  }

  // ----- Filters

  lemma {:induction false} FilterAll(p: string -> bool, lines: seq<string>)
    requires forall k :: 0 <= k < |lines| ==> p(lines[k])
    ensures Filter(p, lines) == lines
    decreases |lines|
  {
    if |lines| > 0 {
      FilterAll(p, lines[..|lines| - 1]);
    }
  }

  lemma {:induction false} FilterNone(p: string -> bool, lines: seq<string>)
    requires forall k :: 0 <= k < |lines| ==> !p(lines[k])
    ensures Filter(p, lines) == []
    decreases |lines|
  {
    if |lines| > 0 {
      FilterNone(p, lines[..|lines| - 1]);
    }
  }

  lemma {:induction false} FilterFilter(p: string -> bool, q: string -> bool, lines: seq<string>)
    requires forall line :: p(line) ==> q(line)
    ensures Filter(p, Filter(q, lines)) == Filter(p, lines)
    decreases |lines|
  {
    if |lines| > 0 {
      var init, last := lines[..|lines| - 1], lines[|lines| - 1];
      FilterFilter(p, q, init);
      if q(last) {
        var kept := Filter(q, lines);
        assert kept == Filter(q, init) + [last] && kept[..|kept| - 1] == Filter(q, init);
      }
    }
  }

  lemma KindsAreControlled(line: string)
    ensures IsFrameLine(line) || IsSummaryLine(line) || IsDone(line) ==> IsControlled(line)
  {
    var a, b := "TLFRAME ", "TLFIRMWARE SUMMARY";
    assert "TLFRAME" <= a && "TLFIRMWARE" <= b && "TLFIRMWARE" <= DONE;
  }

  // ----- A record's bytes

  predicate IsSensorFrame(frame: TelemetryFrame, offset: nat) {
    Supported(frame) && frame.header.sequence as int == 1000 + offset
  }

  /**
   The validator's checks of one record's bytes agree with the decoder of the host: they pass exactly when the decoder
   accepts and the sequence number is the expected one.
   */
  lemma ChecksAgreeWithDecoder(raw: seq<byte>, offset: nat)
    requires |raw| == FRAME_SIZE && offset < EXPECTED_FRAME_COUNT
    ensures HeaderIsValid(raw) && SequenceAndCrcAreValid(raw, offset) <==>
            Deserialize(raw).frame.Some? && Deserialize(raw).frame.value.header.sequence as int == 1000 + offset
  {
    hide BigEndian, Crc, Join32, Deserialize;
    ErrorMeaning(raw);
    assert raw[30..] == raw[30..34];
    Join32Number(raw[6..10]);
    SequenceField(raw);
  }

  lemma SequenceField(raw: seq<byte>)
    requires |raw| == FRAME_SIZE
    ensures Deserialize(raw).frame.Some? ==> Deserialize(raw).frame.value.header.sequence == Join32(raw[6..10])
    ensures Deserialize(raw).frame.Some? <==> Deserialize(raw).error == NoError
  {
    hide Join16, Join32, Join64, Crc;
  }
}
