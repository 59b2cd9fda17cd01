/** Every step of every interleaving keeps the invariant of the host pipeline. */
module HostInvariant {
  import opened Words
  import opened Protocol
  import opened Metrics
  import opened Ingestion
  import opened HostPipeline

  lemma InitialInv(c: Config)
    requires c.capacity >= 1
    ensures Inv(c, INITIAL)
  {
    assert c.inputs[..0] == [];
  }

  lemma IncModulo(n: nat)
    ensures Inc64(n % TWO_TO_THE_64) == (n + 1) % TWO_TO_THE_64
  {
  }

  lemma {:induction false} AcceptedCount(inputs: seq<Bytes>)
    ensures CountersAfter(inputs).accepted == |ValidInputs(inputs)| % TWO_TO_THE_64
    decreases |inputs|
  {
    hide IsValid, ErrorOf, Inc64;
    if |inputs| > 0 {
      var init := inputs[..|inputs| - 1];
      AcceptedCount(init);
      IncModulo(|ValidInputs(init)|);
    }
  }

  lemma TakeOne(c: Config, n: nat)
    requires n < |c.inputs|
    ensures c.inputs[..n + 1] == c.inputs[..n] + [c.inputs[n]]
  {
  }

  /** What finishing the input in flight does to the two summaries of the finished inputs. */
  lemma Finishing(c: Config, n: nat)
    requires n < |c.inputs|
    ensures ValidInputs(c.inputs[..n + 1])
         == ValidInputs(c.inputs[..n]) + if IsValid(c.inputs[n]) then [c.inputs[n]] else []
    ensures CountersAfter(c.inputs[..n + 1]) == CountOne(CountersAfter(c.inputs[..n]), c.inputs[n])
  {
    hide IsValid, CountOne;
    TakeOne(c, n);
    ValidSnoc(c.inputs[..n], c.inputs[n]);
    CountersSnoc(c.inputs[..n], c.inputs[n]);
  }

  /** The queue part depends on the ingestor only through what it has pushed. */
  lemma QueueFrame(c: Config, s: State, t: State)
    requires IngestorInv(c, s) && IngestorInv(c, t)
    requires QueueInv(c, s, Processed(c, s))
    requires Pushed(c, t) == Pushed(c, s) && t.queue == s.queue && t.consumer == s.consumer
    requires t.consumed == s.consumed && t.processing == s.processing && (s.closed ==> t.closed)
    ensures QueueInv(c, t, Processed(c, t))
  {
    hide IsValid, ErrorOf, ProcessingAfter, ValidInputs;
  }

  lemma PushInv(c: Config, s: State, t: State)
    requires Inv(c, s) && s.ingestor.Pushing? && IngestorNext(c, s) == Some(t)
    ensures Inv(c, t)
  {
    hide IsValid, ErrorOf, ProcessingAfter, ValidInputs, CountersAfter, CountInput;
    var b := c.inputs[s.taken];
    assert t.ingestor.Accepting? && t.queue == s.queue + [b];
    assert Pushed(c, t) == Pushed(c, s) + [b];
    var processed := Processed(c, s);
    assert Pushed(c, t) == processed + Held(t) + t.queue;
    assert Processed(c, t) == processed;
  }

  lemma JoinInv(c: Config, s: State, t: State)
    requires Inv(c, s) && s.ingestor.Joining? && IngestorNext(c, s) == Some(t)
    ensures Inv(c, t)
  {
    hide IsValid, ErrorOf, ProcessingAfter, ValidInputs, CountersAfter;
    AcceptedCount(c.inputs);
    assert c.inputs[..s.taken] == c.inputs;
    assert Processed(c, s) == ValidInputs(c.inputs);
    QueueFrame(c, s, t);
  }

  lemma FinishInv(c: Config, s: State, t: State)
    requires Inv(c, s) && (s.ingestor.Accepting? || s.ingestor.Classifying?) && IngestorNext(c, s) == Some(t)
    ensures Inv(c, t)
  {
    hide IsValid, ErrorOf, ProcessingAfter, ValidInputs, CountersAfter;
    hide CountInput, CountRejected, CountAccepted, CountParseError;
    Finishing(c, s.taken);
    assert Pushed(c, t) == Pushed(c, s);
    QueueFrame(c, s, t);
  }

  lemma IngestorStepInv(c: Config, s: State, t: State)
    requires Inv(c, s) && IngestorNext(c, s) == Some(t)
    ensures Inv(c, t)
  {
    hide IsValid, ErrorOf, ProcessingAfter, ValidInputs, CountersAfter;
    hide CountInput, CountRejected, CountAccepted, CountParseError;
    if s.ingestor.Pushing? {
      PushInv(c, s, t);
    } else if s.ingestor.Joining? {
      JoinInv(c, s, t);
    } else if s.ingestor.Accepting? || s.ingestor.Classifying? {
      FinishInv(c, s, t);
    } else {
      QueueFrame(c, s, t);
    }
  }

  /** Taking an item or returning changes neither what is pushed nor what is processed. */
  lemma PopShape(c: Config, s: State, t: State)
    requires Inv(c, s) && s.consumer.Popping? && ConsumerNext(s) == Some(t)
    ensures IngestorInv(c, t) && t.counters == CountersExpected(c, t) && !t.ingestor.Done?
    ensures Pushed(c, t) == Pushed(c, s) && |Held(t)| + |t.queue| == |Held(s)| + |s.queue|
    ensures Held(t) + t.queue == Held(s) + s.queue && |t.queue| <= |s.queue|
    ensures t.consumed == s.consumed && t.processing == s.processing
    ensures t.consumer.Returned? ==> t.closed && t.queue == [] && t.consumer.result == ConsumerResult(true, t.consumed)
  {
    hide IsValid, ErrorOf, ProcessingAfter, ValidInputs, CountersAfter, QueueInv;
    if |s.queue| > 0 {
      assert Held(t) + t.queue == s.queue;
    }
  }

  lemma PopQueue(c: Config, s: State, t: State, processed: seq<Bytes>)
    requires IngestorInv(c, s) && IngestorInv(c, t) && QueueInv(c, s, processed)
    requires Pushed(c, t) == Pushed(c, s) && Held(t) + t.queue == Held(s) + s.queue && |t.queue| <= |s.queue|
    requires t.consumed == s.consumed && t.processing == s.processing
    requires t.consumer.Returned? ==> t.closed && t.queue == [] && t.consumer.result == ConsumerResult(true, t.consumed)
    ensures QueueInv(c, t, processed)
  {
    hide IsValid, ProcessingAfter, IngestorInv, Pushed, Held;
    JoinAfter(processed, Held(s), s.queue);
    JoinAfter(processed, Held(t), t.queue);
  }

  lemma PopInv(c: Config, s: State, t: State)
    requires Inv(c, s) && s.consumer.Popping? && ConsumerNext(s) == Some(t)
    ensures Inv(c, t)
  {
    hide ConsumerNext, QueueInv, CountersExpected, Pushed, Processed, Held, IsValid, ErrorOf;
    PopShape(c, s, t);
    PopProcessed(c, s, t);
    PopQueue(c, s, t, Processed(c, s));
  }

  lemma PopProcessed(c: Config, s: State, t: State)
    requires IngestorInv(c, s) && IngestorInv(c, t)
    requires Pushed(c, t) == Pushed(c, s) && |Held(t)| + |t.queue| == |Held(s)| + |s.queue|
    ensures Processed(c, t) == Processed(c, s)
  {
    hide Pushed, Held, IsValid;
  }

  lemma JoinAfter(a: seq<Bytes>, b: seq<Bytes>, c: seq<Bytes>)
    ensures a + b + c == a + (b + c)
  {
  }

  /** Whatever the consumer holds was pushed, so it parses again: no early exit. */
  lemma HeldIsValid(c: Config, s: State)
    requires Inv(c, s) && s.consumer.Holding?
    ensures IsValid(s.consumer.bytes) && |s.consumer.bytes| == FRAME_SIZE
  {
    hide IsValid, ErrorOf, ProcessingAfter, CountersAfter;
    var b := s.consumer.bytes;
    assert Held(s) == [b];
    assert b in Pushed(c, s) by {
      var processed := Processed(c, s);
      assert (processed + Held(s) + s.queue)[|processed|] == b;
    }
    ValidHasFrameSize(b);
  }

  lemma ProcessInv(c: Config, s: State, t: State)
    requires Inv(c, s) && s.consumer.Holding? && ConsumerNext(s) == Some(t)
    ensures Inv(c, t) && t.consumer.Popping?
  {
    hide IsValid, ErrorOf, ProcessingAfter, ValidInputs, CountersAfter;
    hide FrameOf, Record, Wrapped, Inc64;
    var b := s.consumer.bytes;
    var processed := Processed(c, s);
    HeldIsValid(c, s);
    ProcessingSnoc(processed, b);
    IncModulo(|processed|);
    assert Pushed(c, t) == Pushed(c, s);
    assert processed + Held(s) + s.queue == (processed + [b]) + Held(t) + t.queue;
    assert Processed(c, t) == processed + [b];
  }

  lemma ConsumerStepInv(c: Config, s: State, t: State)
    requires Inv(c, s) && ConsumerNext(s) == Some(t)
    ensures Inv(c, t)
  {
    hide Inv;
    if s.consumer.Popping? {
      PopInv(c, s, t);
    } else if s.consumer.Holding? {
      ProcessInv(c, s, t);
    }
  }

  lemma StepInv(c: Config, s: State, t: State)
    requires Inv(c, s) && Step(c, s, t)
    ensures Inv(c, t)
  {
    hide Inv, IngestorNext, ConsumerNext;
    if IngestorNext(c, s) == Some(t) {
      IngestorStepInv(c, s, t);
    } else {
      ConsumerStepInv(c, s, t);
    }
  }

  /** Safety over whole runs: every state of every interleaving satisfies the invariant. */
  lemma {:induction false} RunInv(c: Config, run: seq<State>, k: nat)
    requires c.capacity >= 1 && IsRun(c, run) && k < |run|
    ensures Inv(c, run[k])
    decreases k
  {
    hide Inv, Step;
    if k == 0 {
      InitialInv(c);
    } else {
      RunInv(c, run, k - 1);
      assert Step(c, run[k - 1], run[k - 1 + 1]);
      StepInv(c, run[k - 1], run[k]);
    }
  }
}
