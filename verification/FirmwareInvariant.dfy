/** Every step of every interleaving keeps the invariant of the firmware pipeline. */
module FirmwareInvariant {
  import opened Words
  import opened Protocol
  import opened FirmwarePipeline

  lemma InitialInv(c: Config)
    ensures Inv(c, INITIAL)
  {
    assert c.frames[..0] == [] && c.frames[0..0] == [];
  }

  lemma LagSteps(n: int)
    ensures Inc64(Lag(n, true)) == Lag(n, false)
    ensures Inc64(Lag(n, false)) == Lag(n + 1, false)
    ensures Lag(n + 1, true) == Lag(n, false)
  {
  }

  /** The transmitter ends only on the marker, so not before the marker has been pushed. */
  lemma NotFinished(c: Config, s: State)
    requires Inv(c, s) && !EndPushed(s)
    ensures !s.transmitter.TransmitterFinished?
  {
    hide Serialize, Wrap32, Lines, FrameLine, Trailer, MetricsAreValid, Lag, MetricsExpected;
    var pending := Items(c.frames[|s.output|..PushedCount(s)]);
    var finished := s.transmitter.TransmitterFinished?;
    var right := Held(s) + s.queue + End(finished);
    assert right == pending + End(false) == pending;
    MarkerPresent(Held(s) + s.queue, finished);
    MarkerAbsent(c.frames[|s.output|..PushedCount(s)]);
  }

  lemma MarkerPresent(items: seq<QueueItem>, finished: bool)
    ensures finished ==> EndOfStream in items + End(finished)
  {
    if finished {
      assert (items + End(finished))[|items|] == EndOfStream;
    }
  }

  lemma MarkerAbsent(frames: seq<TelemetryFrame>)
    ensures EndOfStream !in Items(frames)
  {
  }

  lemma MoreItems(c: Config, a: nat, b: nat)
    requires a <= b < |c.frames|
    ensures Items(c.frames[a..b + 1]) == Items(c.frames[a..b]) + [ItemOf(c.frames[b])]
  {
    hide ItemOf;
  }

  lemma PushInv(c: Config, s: State, t: State)
    requires Inv(c, s) && s.producer.Pushing? && ProducerNext(c, s) == Some(t)
    ensures Inv(c, t)
  {
    hide Serialize, Wrap32, Lines, FrameLine, Trailer, MetricsAreValid, Inc64, Lag, Items;
    var p, n := PushedCount(s), |s.output|;
    LagSteps(p);
    NotFinished(c, s);
    MoreItems(c, n, p);
    var item := FrameItem(s.producer.bytes);
    assert Items(c.frames[n..p]) + End(false) == Items(c.frames[n..p]);
    assert Held(s) + s.queue + End(false) == Held(s) + s.queue;
    assert Held(s) + (s.queue + [item]) + End(false) == Held(s) + s.queue + [item];
    assert Items(c.frames[n..p + 1]) + End(false) == Items(c.frames[n..p]) + [item];
  }

  lemma PushEndInv(c: Config, s: State, t: State)
    requires Inv(c, s) && s.producer.PushingEnd? && ProducerNext(c, s) == Some(t)
    ensures Inv(c, t)
  {
    hide Serialize, Wrap32, Lines, FrameLine, Trailer, MetricsAreValid, Inc64, Lag, Items;
    NotFinished(c, s);
    var pending := Items(c.frames[|s.output|..PushedCount(s)]);
    assert pending + End(false) == pending;
    assert Held(s) + s.queue + End(false) == Held(s) + s.queue;
    assert Held(s) + (s.queue + [EndOfStream]) + End(false) == Held(s) + s.queue + [EndOfStream];
  }

  /** The producer's steps that leave the queue alone. */
  lemma PrivateStepInv(c: Config, s: State, t: State)
    requires Inv(c, s) && !s.producer.Pushing? && !s.producer.PushingEnd? && ProducerNext(c, s) == Some(t)
    ensures Inv(c, t)
  {
    PrivateStepStream(c, s, t);
    PrivateStepMetrics(c, s, t);
    hide ProducerInv, StreamInv, MainInv, MetricsExpected, ProducerNext;
  }

  lemma PrivateStepMetrics(c: Config, s: State, t: State)
    requires ProducerInv(c, s) && !s.producer.Pushing? && !s.producer.PushingEnd? && ProducerNext(c, s) == Some(t)
    requires s.metrics == MetricsExpected(s)
    ensures t.metrics == MetricsExpected(t)
  {
    hide Serialize, Inc64, Lag;
    LagSteps(s.nextIndex);
    LagSteps(s.nextIndex - 1);
    IncOnce();
  }

  /** Such a step changes neither what is pushed nor anything of the other threads. */
  lemma PrivateStepShape(c: Config, s: State, t: State)
    requires ProducerInv(c, s) && !s.producer.Pushing? && !s.producer.PushingEnd? && ProducerNext(c, s) == Some(t)
    ensures ProducerInv(c, t) && PushedCount(t) == PushedCount(s) && EndPushed(t) == EndPushed(s)
    ensures s.producer.ProducerFinished? == false
    ensures t == s.(producer := t.producer, nextIndex := t.nextIndex, metrics := t.metrics)
  {
    hide Serialize, Inc64;
  }

  lemma PrivateStepStream(c: Config, s: State, t: State)
    requires Inv(c, s) && !s.producer.Pushing? && !s.producer.PushingEnd? && ProducerNext(c, s) == Some(t)
    ensures ProducerInv(c, t) && StreamInv(c, t) && MainInv(c, t)
  {
    PrivateStepShape(c, s, t);
    hide ProducerInv, PushedCount, EndPushed, ProducerNext, Wrap32, Lines, MetricsAreValid, Trailer, MetricsExpected, Items;
  }

  lemma ProducerStepInv(c: Config, s: State, t: State)
    requires Inv(c, s) && ProducerNext(c, s) == Some(t)
    ensures Inv(c, t)
  {
    hide Inv, ProducerNext;
    if s.producer.Pushing? {
      PushInv(c, s, t);
    } else if s.producer.PushingEnd? {
      PushEndInv(c, s, t);
    } else {
      PrivateStepInv(c, s, t);
    }
  }

  lemma IncOnce()
    ensures Inc64(0) == 1
  {
  }

  lemma MainStepInv(c: Config, s: State, t: State)
    requires Inv(c, s) && MainNext(c, s) == Some(t)
    ensures Inv(c, t)
  {
    hide Serialize, Wrap32, Lines, FrameLine, Trailer, MetricsAreValid, Lag, Items;
  }

  lemma PopInv(c: Config, s: State, t: State)
    requires Inv(c, s) && s.transmitter.Popping? && TransmitterNext(s) == Some(t)
    ensures Inv(c, t)
  {
    hide Serialize, Wrap32, Lines, FrameLine, Trailer, MetricsAreValid, Lag, Items;
    assert Held(t) + t.queue == s.queue;
  }

  /** What the transmitter holds is the next frame in order, or the end marker with nothing after it. */
  lemma HeldIsNext(c: Config, s: State)
    requires Inv(c, s) && s.transmitter.Holding?
    ensures if s.transmitter.item.EndOfStream?
            then |s.output| == |c.frames| && EndPushed(s) && s.queue == []
            else |s.output| < PushedCount(s) && s.transmitter.item == ItemOf(c.frames[|s.output|])
  {
    hide Serialize, Wrap32, Lines, FrameLine, Trailer, MetricsAreValid, Lag;
    var pending := c.frames[|s.output|..PushedCount(s)];
    var all := Items(pending) + End(EndPushed(s));
    assert all == [s.transmitter.item] + s.queue;
    assert all[0] == s.transmitter.item;
    if |pending| > 0 {
      assert all[0] == ItemOf(pending[0]);
    }
    if s.transmitter.item.EndOfStream? {
      assert |all| == 1;
    }
  }

  lemma TakePending(frames: seq<TelemetryFrame>, n: nat, p: nat, end: seq<QueueItem>, item: QueueItem,
                    queue: seq<QueueItem>)
    requires n < p <= |frames| && Items(frames[n..p]) + end == [item] + queue
    ensures Items(frames[n + 1..p]) + end == queue
  {
    hide ItemOf;
    var all := Items(frames[n..p]) + end;
    assert all[1..] == queue;
    assert Items(frames[n..p])[1..] == Items(frames[n + 1..p]);
    assert all[1..] == Items(frames[n..p])[1..] + end;
  }

  lemma OneMoreLine(frames: seq<TelemetryFrame>, n: nat)
    requires n < |frames|
    ensures Lines(frames[..n + 1])
         == Lines(frames[..n]) + [FrameLine(Wrap32(n + 1), Serialize(frames[n]))]
  {
    hide FrameLine, Serialize, Wrap32;
  }

  lemma NextIndex(n: nat)
    ensures Wrap32(Wrap32(n) + 1) == Wrap32(n + 1)
  {
  }

  lemma PendingAfterPrint(c: Config, s: State)
    requires Inv(c, s) && s.transmitter.Holding? && s.transmitter.item.FrameItem?
    ensures var n := |s.output|;
            && n < PushedCount(s) <= |c.frames|
            && s.transmitter.item == ItemOf(c.frames[n])
            && Items(c.frames[n + 1..PushedCount(s)]) + End(EndPushed(s)) == s.queue
  {
    HeldIsNext(c, s);
    hide Serialize, Wrap32, FrameLine, Trailer, MetricsAreValid, MainInv, Items, Lines, MetricsExpected;
    assert Held(s) + s.queue + End(false) == [s.transmitter.item] + s.queue;
    TakePending(c.frames, |s.output|, PushedCount(s), End(EndPushed(s)), s.transmitter.item, s.queue);
  }

  lemma PrintNext(c: Config, s: State, t: State)
    requires Inv(c, s) && s.transmitter.Holding? && s.transmitter.item.FrameItem? && TransmitterNext(s) == Some(t)
    ensures var n := |s.output|;
            && n < PushedCount(s) <= |c.frames|
            && t == s.(transmitter := Printed, transmissionIndex := Wrap32(n + 1),
                       output := s.output + [FrameLine(Wrap32(n + 1), Serialize(c.frames[n]))])
  {
    PendingAfterPrint(c, s);
    hide Serialize, Wrap32, FrameLine, Trailer, MetricsAreValid, MainInv, Items, Lines, MetricsExpected;
    NextIndex(|s.output|);
  }

  /** The producer's part of the invariant and what counts as pushed do not depend on the transmitter. */
  lemma PrintProducer(c: Config, s: State, t: State)
    requires ProducerInv(c, s) && t.producer == s.producer && t.nextIndex == s.nextIndex
    ensures ProducerInv(c, t) && PushedCount(t) == PushedCount(s) && EndPushed(t) == EndPushed(s)
  {
    hide Serialize;
  }

  /** After a print nothing is held, so what is pending is what is queued. */
  lemma PrintStream(c: Config, s: State, t: State)
    requires Inv(c, s) && s.transmitter.Holding? && s.transmitter.item.FrameItem? && TransmitterNext(s) == Some(t)
    ensures ProducerInv(c, t) && StreamInv(c, t)
  {
    hide Inv, StreamInv, ProducerInv, PushedCount, EndPushed, TransmitterNext, Serialize, Wrap32, FrameLine, Items, Lines;
    PrintNext(c, s, t);
    PendingAfterPrint(c, s);
    OutputIsLines(c, s);
    PrintProducer(c, s, t);
    OneMoreLine(c.frames, |s.output|);
    StreamAfterPrint(c, t, |s.output| + 1);
  }

  lemma StreamAfterPrint(c: Config, t: State, n: nat)
    requires ProducerInv(c, t) && t.transmitter.Printed? && |t.queue| <= c.capacity
    requires |t.output| == n && 0 < n <= PushedCount(t) && t.output == Lines(c.frames[..n])
    requires t.transmissionIndex == Wrap32(n)
    requires Items(c.frames[n..PushedCount(t)]) + End(EndPushed(t)) == t.queue
    ensures StreamInv(c, t)
  {
    hide Serialize, Wrap32, Items, Lines;
    NothingHeld(t);
  }

  lemma OutputIsLines(c: Config, s: State)
    requires Inv(c, s)
    ensures ProducerInv(c, s) && PushedCount(s) <= |c.frames|
    ensures |s.queue| <= c.capacity && |s.output| <= PushedCount(s) && s.output == Lines(c.frames[..|s.output|])
  {
    hide MainInv, MetricsExpected, Items, Lines;
  }

  lemma NothingHeld(t: State)
    requires t.transmitter.Printed?
    ensures Held(t) + t.queue + End(false) == t.queue
  {
  }

  lemma PrintInv(c: Config, s: State, t: State)
    requires Inv(c, s) && s.transmitter.Holding? && s.transmitter.item.FrameItem? && TransmitterNext(s) == Some(t)
    ensures Inv(c, t)
  {
    PrintStream(c, s, t);
    hide Serialize, Wrap32, FrameLine, Trailer, MetricsAreValid, Lag, Items, Lines, StreamInv;
    LagSteps(|s.output|);
  }

  lemma EndInv(c: Config, s: State, t: State)
    requires Inv(c, s) && s.transmitter.Holding? && s.transmitter.item.EndOfStream? && TransmitterNext(s) == Some(t)
    ensures Inv(c, t)
  {
    hide Serialize, Wrap32, Lines, FrameLine, Trailer, MetricsAreValid, Lag, Inc64;
    HeldIsNext(c, s);
    IncOnce();
  }

  lemma CountInv(c: Config, s: State, t: State)
    requires Inv(c, s) && s.transmitter.Printed? && TransmitterNext(s) == Some(t)
    ensures Inv(c, t)
  {
    hide Serialize, Wrap32, Lines, FrameLine, Trailer, MetricsAreValid, Lag, Inc64, Items;
    LagSteps(|s.output|);
  }

  lemma StepInv(c: Config, s: State, t: State)
    requires Inv(c, s) && Step(c, s, t)
    ensures Inv(c, t)
  {
    if ProducerNext(c, s) == Some(t) {
      hide *;
      ProducerStepInv(c, s, t);
    } else if MainNext(c, s) == Some(t) {
      hide *;
      MainStepInv(c, s, t);
    } else {
      TransmitterStepInv(c, s, t);
    }
  }

  lemma TransmitterStepInv(c: Config, s: State, t: State)
    requires Inv(c, s) && TransmitterNext(s) == Some(t)
    ensures Inv(c, t)
  {
    hide Inv, Lag, Inc64, FrameLine;
    if s.transmitter.Popping? {
      PopInv(c, s, t);
    } else if s.transmitter.Printed? {
      CountInv(c, s, t);
    } else if s.transmitter.Holding? {
      if s.transmitter.item.EndOfStream? {
        EndInv(c, s, t);
      } else {
        PrintInv(c, s, t);
      }
    }
  }

  /** Safety over whole runs: every state of every interleaving satisfies the invariant. */
  lemma {:induction false} RunInv(c: Config, run: seq<State>, k: nat)
    requires IsRun(c, run) && k < |run|
    ensures Inv(c, run[k])
    decreases k
  {
    hide Inv, Step;
    if k == 0 {
      InitialInv(c);
    } else {
      RunInv(c, run, k - 1);
      assert Step(c, run[k - 1], run[k - 1 + 1]);
      StepInv(c, run[k - 1], run[k]);
    }
  }
}
