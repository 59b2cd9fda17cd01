/** What every field of the processing statistics says about the frames of a run, in terms of what was on the wire. */
module RunMeaning {
  import opened Words
  import opened Protocol
  import opened Metrics
  import opened SequenceAnalysis
  import opened Statistics
  import opened Numbers

  // ----- Counting positions

  /** How many of the first `n` positions satisfy `p`. */
  function Count(n: nat, p: nat -> bool): (c: nat)
    ensures c <= n
  {
    if n == 0 then 0 else Count(n - 1, p) + if p(n - 1) then 1 else 0
  }

  lemma {:induction false} CountAgrees(n: nat, p: nat -> bool, q: nat -> bool)
    requires forall k: nat :: k < n ==> p(k) == q(k)
    ensures Count(n, p) == Count(n, q)
    decreases n
  {
    if n > 0 {
      CountAgrees(n - 1, p, q);
    }
  }

  // ----- Sequence numbers

  /** The largest sequence number. */
  function Highest(frames: seq<TelemetryFrame>): int
    requires |frames| > 0
  {
    var last := SequenceOf(frames[|frames| - 1]);
    if |frames| == 1 then last else Max(Highest(frames[..|frames| - 1]), last)
  }

  /** The largest of the sequence numbers is one of them. */
  lemma {:induction false} HighestIsMaximum(frames: seq<TelemetryFrame>)
    requires |frames| > 0
    ensures forall k :: 0 <= k < |frames| ==> SequenceOf(frames[k]) <= Highest(frames)
    ensures exists k :: 0 <= k < |frames| && SequenceOf(frames[k]) == Highest(frames)
    decreases |frames|
  {
    hide SequenceOf;
    var n := |frames| - 1;
    if n > 0 {
      var init := frames[..n];
      HighestIsMaximum(init);
      var k :| 0 <= k < n && SequenceOf(init[k]) == Highest(init);
      assert SequenceOf(frames[k]) == Highest(init);
      forall j | 0 <= j < |frames|
        ensures SequenceOf(frames[j]) <= Highest(frames)
      {
        assert j < n ==> frames[j] == init[j];
      }
      assert SequenceOf(frames[n]) == Highest(frames) || SequenceOf(frames[k]) == Highest(frames);
    } else {
      assert SequenceOf(frames[0]) == Highest(frames);
    }
  }

  /** Frame `k` repeats the largest sequence number before it. */
  predicate RepeatsHighest(frames: seq<TelemetryFrame>, k: nat) {
    0 < k < |frames| && SequenceOf(frames[k]) == Highest(frames[..k])
  }

  /** Frame `k` falls behind the largest sequence number before it. */
  predicate FallsBehind(frames: seq<TelemetryFrame>, k: nat) {
    0 < k < |frames| && SequenceOf(frames[k]) < Highest(frames[..k])
  }

  function Repeats(frames: seq<TelemetryFrame>): nat {
    Count(|frames|, (k: nat) => RepeatsHighest(frames, k))
  }

  function Regressions(frames: seq<TelemetryFrame>): nat {
    Count(|frames|, (k: nat) => FallsBehind(frames, k))
  }

  lemma PrefixRelations(frames: seq<TelemetryFrame>, frame: TelemetryFrame, k: nat)
    requires k < |frames|
    ensures RepeatsHighest(frames + [frame], k) == RepeatsHighest(frames, k)
    ensures FallsBehind(frames + [frame], k) == FallsBehind(frames, k)
  {
    assert (frames + [frame])[..k] == frames[..k];
  }

  lemma RepeatsSnoc(frames: seq<TelemetryFrame>, frame: TelemetryFrame)
    requires |frames| > 0
    ensures var q, top := SequenceOf(frame), Highest(frames);
            && Repeats(frames + [frame]) == Repeats(frames) + (if q == top then 1 else 0)
            && Regressions(frames + [frame]) == Regressions(frames) + (if q < top then 1 else 0)
  {
    hide Highest, SequenceOf, RepeatsHighest, FallsBehind;
    var all, n := frames + [frame], |frames|;
    forall k: nat | k < n
      ensures RepeatsHighest(all, k) == RepeatsHighest(frames, k) && FallsBehind(all, k) == FallsBehind(frames, k)
    {
      PrefixRelations(frames, frame, k);
    }
    CountAgrees(n, (k: nat) => RepeatsHighest(all, k), (k: nat) => RepeatsHighest(frames, k));
    CountAgrees(n, (k: nat) => FallsBehind(all, k), (k: nat) => FallsBehind(frames, k));
    LastRelation(frames, frame);
  }

  lemma LastRelation(frames: seq<TelemetryFrame>, frame: TelemetryFrame)
    requires |frames| > 0
    ensures RepeatsHighest(frames + [frame], |frames|) <==> SequenceOf(frame) == Highest(frames)
    ensures FallsBehind(frames + [frame], |frames|) <==> SequenceOf(frame) < Highest(frames)
  {
    hide Highest, SequenceOf;
    assert (frames + [frame])[..|frames|] == frames;
  }

  /** Duplicates are the repetitions of the highest number so far, and out of order is what falls behind it. */
  lemma {:induction false} SequenceCounts(frames: seq<TelemetryFrame>)
    requires |frames| > 0
    ensures var s := SequencesAfter(frames);
            && s.first == Some(SequenceOf(frames[0])) && s.last == Some(Highest(frames))
            && s.duplicates == Repeats(frames) && s.outOfOrder == Regressions(frames)
    decreases |frames|
  {
    hide Fold, SequencesAfter, SequenceOf;
    var init, last := SplitLast(frames);
    SequencesSnoc(init, last);
    NothingYet();
    if |init| == 0 {
      assert init == [] && frames == [last];
      assert !RepeatsHighest(frames, 0) && !FallsBehind(frames, 0);
    } else {
      SequenceCounts(init);
      RepeatsSnoc(init, last);
      assert frames[..|frames| - 1] == init && frames[0] == init[0];
    }
  }

  lemma NoSequences(frames: seq<TelemetryFrame>)
    requires frames == []
    ensures SequencesAfter(frames) == SequenceStats(None, None, 0, 0, 0)
    ensures Repeats(frames) == 0 && Regressions(frames) == 0
  {
  }

  // ----- Flags

  /** How many frames carry the flag with the value `v`, a power of two, in their status word. */
  function Carrying(frames: seq<TelemetryFrame>, v: nat): nat
    requires v > 0
  {
    Count(|frames|, (k: nat) => k < |frames| && FlagsOf(frames[k]) / v % 2 == 1)
  }

  function FlagsOf(frame: TelemetryFrame): nat {
    frame.payload.flags as int
  }

  lemma CarryingSnoc(frames: seq<TelemetryFrame>, frame: TelemetryFrame, v: nat)
    requires v > 0
    ensures Carrying(frames + [frame], v) == Carrying(frames, v) + if FlagsOf(frame) / v % 2 == 1 then 1 else 0
  {
    hide FlagsOf;
    var all, n := frames + [frame], |frames|;
    CountAgrees(n, (k: nat) => k < |all| && FlagsOf(all[k]) / v % 2 == 1,
                (k: nat) => k < n && FlagsOf(frames[k]) / v % 2 == 1);
  }

  lemma FlagNumbers(flags: bv16)
    ensures var n := flags as int;
            && (HasFlag(flags, SENSOR_WARNING) <==> n / 1 % 2 == 1)
            && (HasFlag(flags, VOLTAGE_WARNING) <==> n / 2 % 2 == 1)
            && (HasFlag(flags, COMMUNICATION_WARNING) <==> n / 4 % 2 == 1)
            && (HasFlag(flags, WATCHDOG_EVENT) <==> n / 8 % 2 == 1)
  {
    var high, low := ((flags >> 8) & 0xFF) as byte, (flags & 0xFF) as byte;
    TwoBytes(flags);
    LowByteHasFlags(flags);
    hide HasFlag;
    BitOne(low);
    BitTwo(low);
    BitFour(low);
    BitEight(low);
    LowDigits(flags as int, low as int, high as int);
  }

  lemma TwoBytes(x: bv16)
    ensures x as int == 256 * ((((x >> 8) & 0xFF) as byte) as int) + (((x & 0xFF) as byte) as int)
  {
  }

  lemma LowByteHasFlags(flags: bv16)
    ensures var low := (flags & 0xFF) as byte;
            && (HasFlag(flags, SENSOR_WARNING) <==> low & 1 != 0) && (HasFlag(flags, VOLTAGE_WARNING) <==> low & 2 != 0)
            && (HasFlag(flags, COMMUNICATION_WARNING) <==> low & 4 != 0)
            && (HasFlag(flags, WATCHDOG_EVENT) <==> low & 8 != 0)
  {
  }

  lemma BitOne(b: byte)
    ensures b & 1 != 0 <==> b as int % 2 == 1
  {
  }

  lemma BitTwo(b: byte)
    ensures b & 2 != 0 <==> b as int / 2 % 2 == 1
  {
  }

  lemma BitFour(b: byte)
    ensures b & 4 != 0 <==> b as int / 4 % 2 == 1
  {
  }

  lemma BitEight(b: byte)
    ensures b & 8 != 0 <==> b as int / 8 % 2 == 1
  {
  }

  lemma LowDigits(n: int, low: int, high: int)
    requires n == 256 * high + low && 0 <= low < 256
    ensures n / 1 % 2 == low % 2 && n / 2 % 2 == low / 2 % 2 && n / 4 % 2 == low / 4 % 2 && n / 8 % 2 == low / 8 % 2
  {
    LowDigit(n, low, high, 1, 256);
    LowDigit(n, low, high, 2, 128);
    LowDigit(n, low, high, 4, 64);
    LowDigit(n, low, high, 8, 32);
  }

  lemma LowDigit(n: int, low: int, high: int, v: nat, m: nat)
    requires v > 0 && m % 2 == 0 && n == v * m * high + low
    ensures n / v % 2 == low / v % 2
  {
    assert n == v * (m * high) + low;
    DivideSum(m * high, low, v);
    assert m * high == 2 * ((m / 2) * high);
    ModTwo((m / 2) * high, low / v);
  }

  lemma DivideSum(q: int, r: int, v: nat)
    requires v > 0
    ensures (v * q + r) / v == q + r / v
  {
    var s, p := r / v, (v * q + r) / v;
    assert r == v * s + r % v && v * q + r == v * p + (v * q + r) % v;
    assert v * (p - q - s) == r % v - (v * q + r) % v;
    if p - q - s > 0 {
      MulMonotone(v, 1, p - q - s);
    } else if p - q - s < 0 {
      MulMonotone(v, p - q - s, -1);
    }
  }

  lemma ModTwo(q: int, r: int)
    ensures (2 * q + r) % 2 == r % 2
  {
  }

  ghost predicate WarningsCount(w: Warnings, frames: seq<TelemetryFrame>) {
    && w.sensor == Carrying(frames, 1) && w.voltage == Carrying(frames, 2)
    && w.communication == Carrying(frames, 4) && w.watchdog == Carrying(frames, 8)
  }

  /** Each warning counter is the number of frames whose status word has that bit. */
  lemma {:induction false} WarningCounts(frames: seq<TelemetryFrame>)
    ensures WarningsCount(Fold(frames).warnings, frames)
    decreases |frames|
  {
    hide HasFlag, Carrying, FlagsOf, Fold;
    if |frames| == 0 {
      NoWarnings(frames);
    } else {
      var init, last := SplitLast(frames);
      WarningCounts(init);
      FoldSnoc(init, last);
      WarningsSnoc(Fold(init).warnings, init, last);
    }
  }

  lemma WarningsSnoc(w: Warnings, frames: seq<TelemetryFrame>, frame: TelemetryFrame)
    requires WarningsCount(w, frames)
    ensures WarningsCount(RecordFlags(w, frame.payload.flags), frames + [frame])
  {
    hide HasFlag, Carrying;
    FlagNumbers(frame.payload.flags);
    CarryingSnoc(frames, frame, 1);
    CarryingSnoc(frames, frame, 2);
    CarryingSnoc(frames, frame, 4);
    CarryingSnoc(frames, frame, 8);
  }

  lemma NoWarnings(frames: seq<TelemetryFrame>)
    requires |frames| == 0
    ensures WarningsCount(Fold(frames).warnings, frames)
  {
  }

  // ----- The accessors

  /** Every reading of a frame is the big-endian number at its place on the wire; the temperature is the signed one. */
  lemma ReadingsOnWire(frame: TelemetryFrame)
    ensures var s := Serialize(frame);
            && SequenceOf(frame) == BigEndian(s[6..10])
            && IsSigned(TemperatureOf(frame), BigEndian(s[18..22]))
            && SupplyOf(frame) == BigEndian(s[26..28])
            && FlagsOf(frame) == BigEndian(s[28..30])
  {
    hide Serialize, BigEndian, Signed, IsSigned;
    WireFormat(frame);
    SignedReading(frame.payload.temperature as int, TemperatureOf(frame));
  }

  // ----- The whole record

  /** `r` holds the sum, the smallest and the largest of `values`. */
  ghost predicate RangeHolds(r: Range, values: seq<int>) {
    && r.sum == Total(values)
    && (values == [] ==> r.minimum.None? && r.maximum.None?)
    && (values != [] ==>
          && r.minimum.Some? && r.maximum.Some? && r.minimum.value in values && r.maximum.value in values
          && forall v :: v in values ==> r.minimum.value <= v <= r.maximum.value)
  }

  lemma RangeIsHeld(values: seq<int>)
    ensures RangeHolds(RangeOf(values), values)
  {
    hide RangeOf, Total;
    SumIsTotal(values);
    if values == [] {
      EmptyRange();
    } else {
      RangeMeaning(values);
    }
  }

  lemma EmptyRange()
    ensures RangeOf([]) == Range(None, None, 0)
  {
  }

  ghost predicate SequencesHold(s: SequenceStats, frames: seq<TelemetryFrame>) {
    && s.duplicates == Repeats(frames) && s.outOfOrder == Regressions(frames)
    && s.missing == |NeverReceived(frames)| + LateArrivals(frames)
    && s.first == (if frames == [] then None else Some(SequenceOf(frames[0])))
    && s.last == (if frames == [] then None else Some(Highest(frames)))
  }

  lemma SequencesAreHeld(frames: seq<TelemetryFrame>)
    ensures SequencesHold(SequencesAfter(frames), frames)
  {
    hide SequencesAfter, SequenceOf, NeverReceived, LateArrivals, Repeats, Regressions, Highest;
    MissingMeaning(frames);
    if frames == [] {
      NoSequences(frames);
    } else {
      SequenceCounts(frames);
    }
  }

  /** The unbounded statistics are those of the frames, with these temperatures and supply voltages. */
  ghost predicate Describes(p: Processing, frames: seq<TelemetryFrame>, temperatures: seq<int>, supplies: seq<int>) {
    && p.processed == |frames|
    && SequencesHold(p.sequences, frames)
    && WarningsCount(p.warnings, frames)
    && RangeHolds(p.temperature, temperatures)
    && RangeHolds(p.supply, supplies)
  }

  /** The fold over any run says exactly this about it. */
  lemma FoldDescribes(frames: seq<TelemetryFrame>, temperatures: seq<int>, supplies: seq<int>)
    requires AreTemperatures(temperatures, frames) && AreSupplies(supplies, frames)
    ensures Describes(Fold(frames), frames, temperatures, supplies)
  {
    hide Fold, SequencesHold, WarningsCount, RangeHolds, AreTemperatures, AreSupplies, RangeOf;
    TemperaturesAreReadings(frames, temperatures);
    SuppliesAreReadings(frames, supplies);
    FoldWellFormed(frames);
    SequencesAreHeld(frames);
    WarningCounts(frames);
    RangesOfFold(frames);
    RangeIsHeld(temperatures);
    RangeIsHeld(supplies);
  }

  /** `held` is what 64-bit counters hold of `p`: each modulo 2^64, but for the optional numbers and the signed sum. */
  ghost predicate HeldIn64Bits(held: Processing, p: Processing) {
    && held.processed == p.processed % 0x1_0000_0000_0000_0000
    && held.sequences.first == p.sequences.first && held.sequences.last == p.sequences.last
    && held.sequences.missing == p.sequences.missing % 0x1_0000_0000_0000_0000
    && held.sequences.duplicates == p.sequences.duplicates % 0x1_0000_0000_0000_0000
    && held.sequences.outOfOrder == p.sequences.outOfOrder % 0x1_0000_0000_0000_0000
    && held.warnings.sensor == p.warnings.sensor % 0x1_0000_0000_0000_0000
    && held.warnings.voltage == p.warnings.voltage % 0x1_0000_0000_0000_0000
    && held.warnings.communication == p.warnings.communication % 0x1_0000_0000_0000_0000
    && held.warnings.watchdog == p.warnings.watchdog % 0x1_0000_0000_0000_0000
    && held.temperature == p.temperature
    && held.supply == Range(p.supply.minimum, p.supply.maximum, p.supply.sum % 0x1_0000_0000_0000_0000)
  }

  lemma WrappedIsHeld(p: Processing)
    ensures HeldIn64Bits(Wrapped(p), p)
  {
  }
}
