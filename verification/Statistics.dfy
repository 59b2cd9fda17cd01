/** The order-insensitive part of the statistics, its extrema and sums, and how long the sums stay exact. */
module Statistics {
  import opened Words
  import opened Protocol
  import opened Metrics
  import opened SequenceAnalysis
  import opened Numbers

  // ----- Order does not matter

  /** Everything but the analysis of the sequence numbers. */
  datatype Tally = Tally(processed: nat, warnings: Warnings, temperature: Range, supply: Range)

  function TallyOf(p: Processing): Tally {
    Tally(p.processed, p.warnings, p.temperature, p.supply)
  }

  function TallyStep(t: Tally, frame: TelemetryFrame): Tally {
    Tally(t.processed + 1, RecordFlags(t.warnings, frame.payload.flags),
          RecordReading(t.temperature, TemperatureOf(frame)), RecordReading(t.supply, SupplyOf(frame)))
  }

  function TallyAfter(frames: seq<TelemetryFrame>): Tally {
    TallyOf(Fold(frames))
  }

  lemma TallySnoc(frames: seq<TelemetryFrame>, frame: TelemetryFrame)
    ensures TallyAfter(frames + [frame]) == TallyStep(TallyAfter(frames), frame)
  {
    FoldSnoc(frames, frame);
  }

  lemma FlagsCommute(w: Warnings, f: bv16, g: bv16)
    ensures RecordFlags(RecordFlags(w, f), g) == RecordFlags(RecordFlags(w, g), f)
  {
    hide HasFlag;
  }

  lemma ReadingsCommute(r: Range, v: int, w: int)
    requires r.minimum.Some? <==> r.maximum.Some?
    ensures RecordReading(RecordReading(r, v), w) == RecordReading(RecordReading(r, w), v)
  {
  }

  lemma StepsCommute(frames: seq<TelemetryFrame>, f: TelemetryFrame, g: TelemetryFrame)
    ensures var t := TallyAfter(frames);
            TallyStep(TallyStep(t, f), g) == TallyStep(TallyStep(t, g), f)
  {
    hide RecordFlags, RecordReading, TemperatureOf, SupplyOf, Fold;
    var t := TallyAfter(frames);
    FoldWellFormed(frames);
    FlagsCommute(t.warnings, f.payload.flags, g.payload.flags);
    ReadingsCommute(t.temperature, TemperatureOf(f), TemperatureOf(g));
    ReadingsCommute(t.supply, SupplyOf(f), SupplyOf(g));
  }

  lemma {:induction false} MoveToEnd(a: seq<TelemetryFrame>, x: TelemetryFrame, c: seq<TelemetryFrame>)
    ensures TallyAfter(a + [x] + c) == TallyAfter(a + c + [x])
    decreases |c|
  {
    hide TallyAfter, TallyStep;
    if |c| == 0 {
      assert a + [x] + c == a + c + [x];
    } else {
      var init, y := SplitLast(c);
      assert a + [x] + c == (a + [x] + init) + [y] && a + c == (a + init) + [y];
      MoveToEnd(a, x, init);
      TallySnoc(a + [x] + init, y);
      TallySnoc(a + init, x);
      TallySnoc(a + init, y);
      TallySnoc(a + c, x);
      StepsCommute(a + init, x, y);
    }
  }

  lemma MultisetWithout(left: seq<TelemetryFrame>, x: TelemetryFrame, right: seq<TelemetryFrame>)
    ensures multiset(left + right) == multiset(left + [x] + right) - multiset{x}
  {
  }

  lemma {:induction false} TallyOfPermutation(a: seq<TelemetryFrame>, b: seq<TelemetryFrame>)
    requires multiset(a) == multiset(b)
    ensures TallyAfter(a) == TallyAfter(b)
    decreases |a|
  {
    hide TallyAfter, TallyStep;
    if |a| == 0 {
      assert |b| == |multiset(b)| == 0;
      assert a == b;
    } else {
      var init, x := SplitLast(a);
      assert x in multiset(a);
      var k :| 0 <= k < |b| && b[k] == x;
      var left, right := b[..k], b[k + 1..];
      assert b == left + [x] + right;
      MultisetWithout(left, x, right);
      MultisetWithout(init, x, []);
      assert init + [x] + [] == a && init + [] == init;
      TallyOfPermutation(init, left + right);
      MoveToEnd(left, x, right);
      TallySnoc(init, x);
      TallySnoc(left + right, x);
    }
  }

  /** Any order of the same frames gives the same counts, warnings, extrema, sums and last sequence. */
  lemma OrderInsensitive(a: seq<TelemetryFrame>, b: seq<TelemetryFrame>)
    requires multiset(a) == multiset(b)
    ensures TallyAfter(a) == TallyAfter(b)
    ensures SequencesAfter(a).last == SequencesAfter(b).last
  {
    hide TallyAfter, SequencesAfter, SequenceOf;
    TallyOfPermutation(a, b);
    assert forall f :: f in a <==> f in multiset(a);
    assert forall f :: f in b <==> f in multiset(b);
    if |a| == 0 {
      assert |b| == |multiset(b)| == 0;
      assert a == b;
    } else {
      assert a[0] in b;
      SequenceConservation(a);
      SequenceConservation(b);
    }
  }

  // ----- Extrema and sums

  function RangeOf(values: seq<int>): Range {
    if |values| == 0 then Range(None, None, 0)
    else RecordReading(RangeOf(values[..|values| - 1]), values[|values| - 1])
  }

  function Temperatures(frames: seq<TelemetryFrame>): (values: seq<int>)
    ensures |values| == |frames|
    ensures forall i :: 0 <= i < |frames| ==> values[i] == TemperatureOf(frames[i])
  {
    seq(|frames|, i requires 0 <= i < |frames| => TemperatureOf(frames[i]))
  }

  function Supplies(frames: seq<TelemetryFrame>): (values: seq<int>)
    ensures |values| == |frames|
    ensures forall i :: 0 <= i < |frames| ==> values[i] == SupplyOf(frames[i])
  {
    seq(|frames|, i requires 0 <= i < |frames| => SupplyOf(frames[i]))
  }

  lemma {:induction false} RangesOfFold(frames: seq<TelemetryFrame>)
    ensures Fold(frames).temperature == RangeOf(Temperatures(frames))
    ensures Fold(frames).supply == RangeOf(Supplies(frames))
    decreases |frames|
  {
    hide TemperatureOf, SupplyOf, RecordReading, RecordFlags, RecordSequence;
    if |frames| > 0 {
      var init := frames[..|frames| - 1];
      RangesOfFold(init);
      assert Temperatures(frames)[..|frames| - 1] == Temperatures(init);
      assert Supplies(frames)[..|frames| - 1] == Supplies(init);
    }
  }

  /** The signed numbers that the temperature words of the frames stand for. */
  ghost predicate AreTemperatures(values: seq<int>, frames: seq<TelemetryFrame>) {
    |values| == |frames| && forall k :: 0 <= k < |frames| ==> IsSigned(values[k], frames[k].payload.temperature as int)
  }

  ghost predicate AreSupplies(values: seq<int>, frames: seq<TelemetryFrame>) {
    |values| == |frames| && forall k :: 0 <= k < |frames| ==> values[k] == frames[k].payload.supply as int
  }

  /** The reading of a temperature word is the one signed 32-bit number that differs from it by a multiple of 2^32. */
  lemma SignedReading(n: u32, t: int)
    ensures IsSigned(t, n) <==> t == Signed(n)
  {
  }

  lemma TemperaturesAreReadings(frames: seq<TelemetryFrame>, values: seq<int>)
    ensures AreTemperatures(values, frames) <==> values == Temperatures(frames)
  {
    hide Signed, IsSigned;
    if |values| == |frames| {
      forall k | 0 <= k < |frames|
        ensures IsSigned(values[k], frames[k].payload.temperature as int) <==> values[k] == TemperatureOf(frames[k])
      {
        SignedReading(frames[k].payload.temperature as int, values[k]);
      }
    }
  }

  lemma SuppliesAreReadings(frames: seq<TelemetryFrame>, values: seq<int>)
    ensures AreSupplies(values, frames) <==> values == Supplies(frames)
  {
    assert forall k :: 0 <= k < |frames| ==> Supplies(frames)[k] == frames[k].payload.supply as int;
  }

  function Total(values: seq<int>): int {
    if |values| == 0 then 0 else Total(values[..|values| - 1]) + values[|values| - 1]
  }

  lemma {:induction false} SumIsTotal(values: seq<int>)
    ensures RangeOf(values).sum == Total(values)
    decreases |values|
  {
    if |values| > 0 {
      SumIsTotal(values[..|values| - 1]);
    }
  }

  lemma MulMonotone(n: nat, a: int, b: int)
    requires a <= b
    ensures n * a <= n * b
  {
  }

  /** The extrema are attained, bound every reading, and bracket the sum, hence the average. */
  lemma {:induction false} RangeMeaning(values: seq<int>)
    requires |values| > 0
    ensures var r := RangeOf(values);
            && r.minimum.Some? && r.maximum.Some?
            && r.minimum.value in values && r.maximum.value in values
            && (forall v :: v in values ==> r.minimum.value <= v <= r.maximum.value)
            && |values| * r.minimum.value <= r.sum <= |values| * r.maximum.value
    decreases |values|
  {
    var n := |values| - 1;
    var init, v := values[..n], values[n];
    assert values == init + [v];
    if n > 0 {
      RangeMeaning(init);
      var before, after := RangeOf(init), RangeOf(values);
      MulMonotone(n, after.minimum.value, before.minimum.value);
      MulMonotone(n, before.maximum.value, after.maximum.value);
      Distribute(n, after.minimum.value);
      Distribute(n, after.maximum.value);
    } else {
      assert init == [];
      assert values == [v];
    }
  }

  lemma Distribute(n: nat, x: int)
    ensures (n + 1) * x == n * x + x
  {
  }

  // ----- How many frames the sums can take

  predicate TemperatureSumFits(frames: seq<TelemetryFrame>) {
    -0x8000_0000_0000_0000 <= Fold(frames).temperature.sum < 0x8000_0000_0000_0000
  }

  predicate SupplySumExact(frames: seq<TelemetryFrame>) {
    Wrapped(Fold(frames)).supply.sum == Fold(frames).supply.sum
  }

  function Repeated(frame: TelemetryFrame, n: nat): (frames: seq<TelemetryFrame>)
    ensures |frames| == n
  {
    seq(n, i => frame)
  }

  lemma {:induction false} SumsOfRepeated(frame: TelemetryFrame, n: nat)
    ensures Fold(Repeated(frame, n)).temperature.sum == n * TemperatureOf(frame)
    ensures Fold(Repeated(frame, n)).supply.sum == n * SupplyOf(frame)
    decreases n
  {
    hide TemperatureOf, SupplyOf, RecordFlags, RecordSequence;
    if n > 0 {
      SumsOfRepeated(frame, n - 1);
      assert Repeated(frame, n)[..n - 1] == Repeated(frame, n - 1);
      Distribute(n - 1, TemperatureOf(frame));
      Distribute(n - 1, SupplyOf(frame));
    }
  }

  lemma {:induction false} SumBounds(frames: seq<TelemetryFrame>)
    ensures -TWO_TO_THE_31 * |frames| <= Fold(frames).temperature.sum <= (TWO_TO_THE_31 - 1) * |frames|
    ensures 0 <= Fold(frames).supply.sum <= (TWO_TO_THE_16 - 1) * |frames|
    decreases |frames|
  {
    hide TemperatureOf, SupplyOf, RecordFlags, RecordSequence;
    if |frames| > 0 {
      SumBounds(frames[..|frames| - 1]);
    }
  }

  const COLDEST_FULLEST: TelemetryFrame :=
    TelemetryFrame(FrameHeader(1, 1, 12, 0, 0), TelemetrySample(0x8000_0000, 0, 0xFFFF, 0))

  lemma ExtremeReadings()
    ensures TemperatureOf(COLDEST_FULLEST) == -TWO_TO_THE_31
    ensures SupplyOf(COLDEST_FULLEST) == TWO_TO_THE_16 - 1
  {
  }

  lemma TemperatureSumsFit(frames: seq<TelemetryFrame>)
    requires |frames| <= TWO_TO_THE_32
    ensures TemperatureSumFits(frames)
  {
    hide Fold;
    SumBounds(frames);
  }

  lemma TemperatureSumOverflows(n: nat)
    requires n > TWO_TO_THE_32
    ensures !TemperatureSumFits(Repeated(COLDEST_FULLEST, n))
  {
    hide Fold, TemperatureOf, SupplyOf;
    ExtremeReadings();
    SumsOfRepeated(COLDEST_FULLEST, n);
  }

  /** The signed 64-bit temperature sum is safe for every run of `n` frames exactly up to 2^32 frames. */
  lemma TemperatureSumFitsIff(n: nat)
    ensures (forall frames: seq<TelemetryFrame> | |frames| == n :: TemperatureSumFits(frames)) <==> n <= TWO_TO_THE_32
  {
    hide TemperatureSumFits;
    if n <= TWO_TO_THE_32 {
      forall frames: seq<TelemetryFrame> | |frames| == n
        ensures TemperatureSumFits(frames)
      {
        TemperatureSumsFit(frames);
      }
    } else {
      TemperatureSumOverflows(n);
    }
  }

  /** The longest run whose supply sum is sure to fit in 64 bits. */
  const SUPPLY_FRAMES: nat := (TWO_TO_THE_64 - 1) / (TWO_TO_THE_16 - 1)

  lemma SupplyLimit(n: nat)
    ensures n <= SUPPLY_FRAMES <==> (TWO_TO_THE_16 - 1) * n < TWO_TO_THE_64
  {
  }

  lemma SupplySumsExact(frames: seq<TelemetryFrame>)
    requires |frames| <= SUPPLY_FRAMES
    ensures SupplySumExact(frames)
  {
    hide Fold;
    SupplyLimit(|frames|);
    SumBounds(frames);
  }

  lemma SupplySumWraps(n: nat)
    requires n > SUPPLY_FRAMES
    ensures !SupplySumExact(Repeated(COLDEST_FULLEST, n))
  {
    hide Fold, TemperatureOf, SupplyOf, SUPPLY_FRAMES;
    SupplyLimit(n);
    ExtremeReadings();
    SumsOfRepeated(COLDEST_FULLEST, n);
  }

  /** The unsigned 64-bit supply sum is exact for every run of `n` frames exactly up to (2^64 - 1) / 65535 frames. */
  lemma SupplySumExactIff(n: nat)
    ensures (forall frames: seq<TelemetryFrame> | |frames| == n :: SupplySumExact(frames)) <==> n <= SUPPLY_FRAMES
  {
    hide SupplySumExact, SUPPLY_FRAMES;
    if n <= SUPPLY_FRAMES {
      forall frames: seq<TelemetryFrame> | |frames| == n
        ensures SupplySumExact(frames)
      {
        SupplySumsExact(frames);
      }
    } else {
      SupplySumWraps(n);
    }
  }

  /** No temperature sum on the way from `history` through `frames` leaves the signed 64-bit range. */
  ghost predicate SumsFit(history: seq<TelemetryFrame>, frames: seq<TelemetryFrame>) {
    forall k :: 0 <= k <= |frames| ==> TemperatureSumFits(history + frames[..k])
  }

  /** What the metrics object needs before each record call. */
  lemma NextSumFits(history: seq<TelemetryFrame>, frames: seq<TelemetryFrame>, k: nat)
    requires SumsFit(history, frames) && k < |frames|
    ensures -TWO_TO_THE_63 <= Fold(history + frames[..k]).temperature.sum + TemperatureOf(frames[k]) < TWO_TO_THE_63
    ensures history + frames[..k + 1] == history + frames[..k] + [frames[k]]
  {
    hide Fold, TemperatureOf;
    assert history + frames[..k + 1] == history + frames[..k] + [frames[k]];
    FoldSnoc(history + frames[..k], frames[k]);
  }

  /** Up to 2^32 frames in all the sums are sure to fit. */
  lemma ShortRunsFit(history: seq<TelemetryFrame>, frames: seq<TelemetryFrame>)
    requires |history| + |frames| <= TWO_TO_THE_32
    ensures SumsFit(history, frames)
  {
    hide TemperatureSumFits;
    forall k | 0 <= k <= |frames|
      ensures TemperatureSumFits(history + frames[..k])
    {
      TemperatureSumsFit(history + frames[..k]);
    }
  }
}
