/** What the sequence counters mean over a whole run of processed frames. */
module SequenceAnalysis {
  import opened Words
  import opened Protocol
  import opened Metrics

  function SequencesAfter(frames: seq<TelemetryFrame>): SequenceStats {
    Fold(frames).sequences
  }

  lemma SequencesSnoc(frames: seq<TelemetryFrame>, frame: TelemetryFrame)
    ensures SequencesAfter(frames + [frame]) == RecordSequence(SequencesAfter(frames), SequenceOf(frame))
  {
    FoldSnoc(frames, frame);
  }

  lemma SplitLast(frames: seq<TelemetryFrame>) returns (init: seq<TelemetryFrame>, last: TelemetryFrame)
    requires |frames| > 0
    ensures frames == init + [last] && |init| == |frames| - 1
  {
    init, last := frames[..|frames| - 1], frames[|frames| - 1];
  }

  lemma NothingYet()
    ensures SequencesAfter([]) == SequenceStats(None, None, 0, 0, 0)
  {
  }

  /** The number of frames and of gaps determine each other; the last sequence is the largest; gaps stay below 2^32. */
  lemma {:induction false} SequenceConservation(frames: seq<TelemetryFrame>)
    requires |frames| > 0
    ensures var s := SequencesAfter(frames);
            && s.first == Some(SequenceOf(frames[0])) && s.last.Some?
            && |frames| + s.missing == (s.last.value - s.first.value) + 1 + s.duplicates + s.outOfOrder
            && (forall f :: f in frames ==> SequenceOf(f) <= s.last.value)
            && (exists f :: f in frames && SequenceOf(f) == s.last.value)
            && s.missing <= s.last.value - s.first.value < TWO_TO_THE_32
    decreases |frames|
  {
    hide Fold, SequenceOf, SequencesAfter;
    var init, last := SplitLast(frames);
    SequencesSnoc(init, last);
    NothingYet();
    if |init| == 0 {
      assert init == [] && frames == [last];
      assert last in frames;
    } else {
      SequenceConservation(init);
      var s := SequencesAfter(init);
      var top :| top in init && SequenceOf(top) == s.last.value;
      assert top in frames && last in frames && frames[0] == init[0];
    }
  }

  // ----- Which sequence numbers never arrived

  function Received(frames: seq<TelemetryFrame>): set<int> {
    set f | f in frames :: SequenceOf(f)
  }

  function Interval(a: int, b: int): (s: set<int>)
    ensures forall v :: v in s <==> a <= v < b
    decreases b - a
  {
    if a >= b then {} else Interval(a, b - 1) + {b - 1}
  }

  lemma {:induction false} IntervalSize(a: int, b: int)
    requires a <= b
    ensures |Interval(a, b)| == b - a
    decreases b - a
  {
    if a < b {
      IntervalSize(a, b - 1);
    }
  }

  /** The numbers between the first and the last sequence that no frame carried. */
  function NeverReceived(frames: seq<TelemetryFrame>): set<int> {
    var s := SequencesAfter(frames);
    if s.first.None? || s.last.None? then {} else Interval(s.first.value, s.last.value + 1) - Received(frames)
  }

  /** Frames that arrived out of order and filled a gap. */
  function LateArrivals(frames: seq<TelemetryFrame>): (n: nat)
    decreases |frames|
  {
    if |frames| == 0 then 0
    else
      var init, q := frames[..|frames| - 1], SequenceOf(frames[|frames| - 1]);
      LateArrivals(init) + if q in NeverReceived(init) then 1 else 0
  }

  lemma ReceivedSnoc(frames: seq<TelemetryFrame>, frame: TelemetryFrame)
    ensures Received(frames + [frame]) == Received(frames) + {SequenceOf(frame)}
  {
    hide SequenceOf;
    var all := frames + [frame];
    forall v | v in Received(frames) + {SequenceOf(frame)}
      ensures v in Received(all)
    {
      if v == SequenceOf(frame) {
        assert frame in all;
      } else {
        var f :| f in frames && SequenceOf(f) == v;
        assert f in all;
      }
    }
  }

  lemma LateSnoc(frames: seq<TelemetryFrame>, frame: TelemetryFrame)
    ensures LateArrivals(frames + [frame])
         == LateArrivals(frames) + if SequenceOf(frame) in NeverReceived(frames) then 1 else 0
  {
    hide SequenceOf, NeverReceived;
    assert (frames + [frame])[..|frames|] == frames;
  }

  lemma LastWasReceived(frames: seq<TelemetryFrame>)
    requires |frames| > 0
    ensures var s := SequencesAfter(frames);
            s.last.Some? && s.first.Some? && s.last.value in Received(frames) && s.first.value in Received(frames)
            && forall v :: v in Received(frames) ==> v <= s.last.value
  {
    hide SequenceOf, SequencesAfter;
    SequenceConservation(frames);
    assert frames[0] in frames;
  }

  /** How one more frame changes the set of numbers never received. */
  lemma NeverReceivedSnoc(frames: seq<TelemetryFrame>, frame: TelemetryFrame)
    requires |frames| > 0
    ensures var s, q := SequencesAfter(frames), SequenceOf(frame);
            s.last.Some? &&
            NeverReceived(frames + [frame]) ==
            if q > s.last.value then NeverReceived(frames) + Interval(s.last.value + 1, q)
            else NeverReceived(frames) - {q}
  {
    hide SequenceOf, SequencesAfter, Received;
    LastWasReceived(frames);
    SequencesSnoc(frames, frame);
    ReceivedSnoc(frames, frame);
  }

  /** The missing counter counts the numbers never received plus the gaps that were filled late. */
  lemma {:induction false} MissingMeaning(frames: seq<TelemetryFrame>)
    ensures |NeverReceived(frames)| + LateArrivals(frames) == SequencesAfter(frames).missing
    ensures LateArrivals(frames) <= SequencesAfter(frames).outOfOrder
    decreases |frames|
  {
    hide SequenceOf, Fold, SequencesAfter, NeverReceived, LateArrivals;
    if |frames| == 0 {
      NoFrames(frames);
    } else {
      var init, last := SplitLast(frames);
      if |init| == 0 {
        OneFrame(init, last);
      } else {
        MissingMeaning(init);
        MissingStep(init, last);
      }
    }
  }

  lemma MissingStep(frames: seq<TelemetryFrame>, frame: TelemetryFrame)
    requires |frames| > 0
    ensures var s, t := SequencesAfter(frames), SequencesAfter(frames + [frame]);
            var late := LateArrivals(frames + [frame]) - LateArrivals(frames);
            && |NeverReceived(frames + [frame])| + late == |NeverReceived(frames)| + t.missing - s.missing
            && late <= t.outOfOrder - s.outOfOrder
  {
    hide SequenceOf, SequencesAfter, NeverReceived, LateArrivals, Interval, Received;
    SequencesSnoc(frames, frame);
    LateSnoc(frames, frame);
    NeverReceivedSnoc(frames, frame);
    InRange(frames);
    LastWasReceived(frames);
    var s, q := SequencesAfter(frames), SequenceOf(frame);
    if q > s.last.value {
      IntervalSize(s.last.value + 1, q);
      DisjointUnionSize(NeverReceived(frames), Interval(s.last.value + 1, q));
    } else {
      RemovalSize(NeverReceived(frames), q);
      LastNotMissing(frames);
    }
  }

  lemma RemovalSize(a: set<int>, q: int)
    ensures |a - {q}| == |a| - if q in a then 1 else 0
  {
    if q !in a {
      assert a - {q} == a;
    }
  }

  lemma LastNotMissing(frames: seq<TelemetryFrame>)
    requires |frames| > 0
    ensures SequencesAfter(frames).last.Some? && SequencesAfter(frames).last.value !in NeverReceived(frames)
  {
    hide SequenceOf, SequencesAfter, NeverReceived;
    InRange(frames);
  }

  lemma NoFrames(frames: seq<TelemetryFrame>)
    requires |frames| == 0
    ensures NeverReceived(frames) == {} && LateArrivals(frames) == 0
    ensures SequencesAfter(frames) == SequenceStats(None, None, 0, 0, 0)
  {
  }

  lemma OneFrame(init: seq<TelemetryFrame>, last: TelemetryFrame)
    requires |init| == 0
    ensures NeverReceived(init + [last]) == {} && LateArrivals(init + [last]) == 0
    ensures SequencesAfter(init + [last]).missing == 0
  {
    hide SequenceOf;
    NoFrames(init);
    SequencesSnoc(init, last);
    ReceivedSnoc(init, last);
    LateSnoc(init, last);
  }

  lemma InRange(frames: seq<TelemetryFrame>)
    requires |frames| > 0
    ensures SequencesAfter(frames).last.Some?
    ensures forall v :: v in NeverReceived(frames) ==> v < SequencesAfter(frames).last.value
  {
    hide SequenceOf, SequencesAfter;
    LastWasReceived(frames);
  }

  lemma DisjointUnionSize(a: set<int>, b: set<int>)
    requires a !! b
    ensures |a + b| == |a| + |b|
  {
  }

  /** So the report brackets the truth, and is the truth when every late frame repeats a number already seen. */
  lemma MissingBounds(frames: seq<TelemetryFrame>)
    ensures var s := SequencesAfter(frames);
            && s.missing - s.outOfOrder <= |NeverReceived(frames)| <= s.missing
            && (|NeverReceived(frames)| == s.missing <==> LateArrivals(frames) == 0)
            && (s.outOfOrder == 0 ==> |NeverReceived(frames)| == s.missing)
  {
    hide SequencesAfter, NeverReceived, LateArrivals;
    MissingMeaning(frames);
  }

  /**
   The bracket is proper: after sequences 100, 102 and 101 nothing between 100 and 102 is still missing, but the report
   counts one, because a late frame does not lower the count.
   */
  lemma MissingIsNotNeverReceived(f: TelemetryFrame, g: TelemetryFrame, h: TelemetryFrame)
    requires SequenceOf(f) == 100 && SequenceOf(g) == 102 && SequenceOf(h) == 101
    ensures var frames := [f, g, h];
            && SequencesAfter(frames).missing == 1 && SequencesAfter(frames).outOfOrder == 1
            && NeverReceived(frames) == {} && LateArrivals(frames) == 1
  {
    hide SequenceOf, SequencesAfter, NeverReceived, LateArrivals;
    var one, two := [] + [f], [] + [f] + [g];
    assert [f, g, h] == two + [h];
    OneFrame([], f);
    SequencesSnoc([], f);
    NothingYet();
    SequencesSnoc(one, g);
    NeverReceivedSnoc(one, g);
    LateSnoc(one, g);
    SequencesSnoc(two, h);
    NeverReceivedSnoc(two, h);
    LateSnoc(two, h);
  }

  /** Gaps never wrap their 64-bit counter, however long the run. */
  lemma MissingNeverWraps(frames: seq<TelemetryFrame>)
    ensures Wrapped(Fold(frames)).sequences.missing == Fold(frames).sequences.missing
  {
    hide Fold;
    if |frames| > 0 {
      SequenceConservation(frames);
    } else {
      NothingYet();
      assert frames == [];
    }
  }
}
