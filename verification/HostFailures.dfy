/**
 The failure exits of the host's step system. No interleaving from the initial state reaches them; these statements are about
 any state, and tie the steps to the thread bodies.
 */
module HostFailures {
  import opened Words
  import opened Protocol
  import opened Metrics
  import opened Ingestion
  import opened HostPipeline
  import opened HostThreads

  /** The consumer takes up to `n` steps while nothing else moves. */
  function ConsumerAlone(s: State, n: nat): State
    decreases n
  {
    if n == 0 || ConsumerNext(s).None? then s else ConsumerAlone(ConsumerNext(s).value, n - 1)
  }

  lemma ConsumerStops(s: State, n: nat)
    requires s.consumer.Returned?
    ensures ConsumerAlone(s, n) == s
  {
  }

  lemma ConsumerMoves(s: State, n: nat)
    requires ConsumerNext(s).Some?
    ensures ConsumerAlone(s, n + 1) == ConsumerAlone(ConsumerNext(s).value, n)
  {
    hide ConsumerNext;
  }

  /** On any closed queue the consumer's steps end as its loop does: at the first item that does not parse, or at the end. */
  lemma {:induction false} ConsumerAloneOutcome(s: State, history: seq<TelemetryFrame>)
    requires s.closed && s.consumer.Popping? && s.consumed < TWO_TO_THE_64
    requires s.processing == Wrapped(Fold(history))
    ensures var t, frames := ConsumerAlone(s, 2 * |s.queue| + 2), PrefixFrames(s.queue);
            && t.consumer == Returned(ConsumerResult(|frames| == |s.queue|, (s.consumed + |frames|) % TWO_TO_THE_64))
            && t.processing == Wrapped(Fold(history + frames))
    decreases |s.queue|
  {
    hide ConsumerAlone, ConsumerNext, Fold, Wrapped, IsValid, FrameOf, PrefixFrames, ValidPrefixLength, Record;
    if s.queue == [] {
      NothingLeft(s, history);
    } else {
      var taken := Taken(s);
      ConsumerMoves(s, 2 * |s.queue| + 1);
      if IsValid(s.queue[0]) {
        var t := Handled(taken);
        ConsumerMoves(taken, 2 * |s.queue|);
        NextFrame(s, t, history);
        ConsumerAloneOutcome(t, history + [FrameOf(s.queue[0])]);
        PrefixExtends(s.queue);
        var rest := PrefixFrames(s.queue[1..]);
        assert history + [FrameOf(s.queue[0])] + rest == history + ([FrameOf(s.queue[0])] + rest);
        CountOneMore(s.consumed, |rest|);
      } else {
        var t := Refused(taken);
        ConsumerMoves(taken, 2 * |s.queue|);
        ConsumerStops(t, 2 * |s.queue|);
        PrefixEnds(s.queue);
        assert history + [] == history;
      }
    }
  }

  lemma NothingLeft(s: State, history: seq<TelemetryFrame>)
    requires s.closed && s.consumer.Popping? && s.queue == [] && s.consumed < TWO_TO_THE_64
    ensures var t := ConsumerAlone(s, 2);
            && t.consumer == Returned(ConsumerResult(true, s.consumed)) && t.processing == s.processing
    ensures PrefixFrames(s.queue) == [] && history + [] == history
    ensures (s.consumed + 0) % TWO_TO_THE_64 == s.consumed
  {
    hide Record, Wrapped;
    ConsumerMoves(s, 1);
    ConsumerStops(ConsumerNext(s).value, 1);
  }

  lemma Taken(s: State) returns (t: State)
    requires s.consumer.Popping? && s.queue != []
    ensures ConsumerNext(s) == Some(t) && t == s.(consumer := Holding(s.queue[0]), queue := s.queue[1..])
  {
    t := s.(consumer := Holding(s.queue[0]), queue := s.queue[1..]);
  }

  lemma Handled(s: State) returns (t: State)
    requires s.consumer.Holding? && IsValid(s.consumer.bytes)
    ensures ConsumerNext(s) == Some(t)
    ensures t == s.(consumer := Popping, consumed := Inc64(s.consumed),
                    processing := Wrapped(Record(s.processing, FrameOf(s.consumer.bytes))))
  {
    ValidHasFrameSize(s.consumer.bytes);
    hide IsValid, FrameOf, Record, Wrapped;
    t := ConsumerNext(s).value;
  }

  lemma Refused(s: State) returns (t: State)
    requires s.consumer.Holding? && !IsValid(s.consumer.bytes)
    ensures ConsumerNext(s) == Some(t) && t == s.(consumer := Returned(ConsumerResult(false, s.consumed)))
  {
    hide IsValid, FrameOf, Record, Wrapped;
    t := ConsumerNext(s).value;
  }

  lemma NextFrame(s: State, t: State, history: seq<TelemetryFrame>)
    requires s.queue != [] && IsValid(s.queue[0]) && s.processing == Wrapped(Fold(history))
    requires t.processing == Wrapped(Record(s.processing, FrameOf(s.queue[0])))
    ensures t.processing == Wrapped(Fold(history + [FrameOf(s.queue[0])]))
  {
    hide IsValid, FrameOf, Record, Wrapped, Fold;
    WrappedRecord(Fold(history), FrameOf(s.queue[0]));
    FoldSnoc(history, FrameOf(s.queue[0]));
  }

  lemma PrefixExtends(items: seq<Bytes>)
    requires items != [] && IsValid(items[0])
    ensures PrefixFrames(items) == [FrameOf(items[0])] + PrefixFrames(items[1..])
  {
    hide IsValid, FrameOf;
    assert forall k :: 0 <= k < |PrefixFrames(items[1..])| ==> items[1..][k] == items[k + 1];
  }

  lemma PrefixEnds(items: seq<Bytes>)
    requires items != [] && !IsValid(items[0])
    ensures PrefixFrames(items) == []
  {
    hide IsValid, FrameOf;
  }

  lemma CountOneMore(consumed: nat, n: nat)
    requires consumed < TWO_TO_THE_64
    ensures (Inc64(consumed) + n) % TWO_TO_THE_64 == (consumed + (1 + n)) % TWO_TO_THE_64
  {
    assert Inc64(consumed) == consumed + 1 || Inc64(consumed) == consumed + 1 - TWO_TO_THE_64;
  }

  /** A refused push is counted and ends the ingestion without success. */
  lemma RefusedPush(c: Config, s: State) returns (t: State)
    requires s.ingestor.Pushing? && s.closed && s.taken < |c.inputs|
    ensures var one := IngestorNext(c, s);
            one.Some? &&
            var two := IngestorNext(c, one.value);
            two.Some? && IngestorNext(c, two.value) == Some(t)
    ensures t.ingestor.Closing? && !t.succeeded && t.queue == s.queue
    ensures t.counters == s.counters.(rejected := Inc64(s.counters.rejected), queueClosed := Inc64(s.counters.queueClosed))
  {
    hide Inc64;
    var two := IngestorNext(c, IngestorNext(c, s).value).value;
    t := IngestorNext(c, two).value;
  }

  /** The operational verdict demands all three: ingestion and consumption succeeded, and their counts agree. */
  lemma OperationalVerdict(c: Config, s: State)
    requires s.ingestor.Joining? && s.consumer.Returned?
    ensures var t := IngestorNext(c, s);
            && t.Some? && t.value.ingestor.Done?
            && (t.value.ingestor.outcome.success <==>
                  s.succeeded && s.consumer.result.success && s.consumer.result.framesConsumed == s.counters.accepted)
  {
  }
}
