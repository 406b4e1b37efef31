/** When payloads are large, the credit window alone keeps every frame inside the reorder buffer, so
    that everything is delivered without any assumption on the order of arrival. */
module LargePayloads {
  import opened Bytes
  import opened Frames
  import opened Stream
  import opened Delivery
  import Acks

  /** Every payload but the last is large enough that a window holds no more than `size` of them. */
  ghost predicate Large(payloads: seq<bytes>, size: nat) {
    forall i :: 0 <= i < |payloads| - 1 ==> |payloads[i]| * size >= WINDOW
  }

  lemma {:induction false} LargeSize(payloads: seq<bytes>, size: nat)
    requires forall i :: 0 <= i < |payloads| ==> |payloads[i]| * size >= WINDOW
    ensures |Flatten(payloads)| * size >= |payloads| * WINDOW
  {
    if payloads != [] {
      LargeSize(payloads[1..], size);
      assert |Flatten(payloads)| * size == |payloads[0]| * size + |Flatten(payloads[1..])| * size;
    }
  }

  lemma SliceSize(log: seq<bytes>, p: nat, n: nat)
    requires p <= n < |log|
    ensures |Flatten(log[..p])| + |Flatten(log[p..n])| + |log[n]| == |Flatten(log[..n + 1])|
  {
    assert log[..n] == log[..p] + log[p..n];
    FlattenConcat(log[..p], log[p..n]);
    FlattenTake(log, n);
  }

  lemma ConsumedBound(s: State)
    requires Inv(s)
    ensures s.rx.popped <= Published(s.tx) <= CountedFrames(s.tx) <= |s.tx.log|
    ensures s.tx.acked <= |Flatten(s.tx.log[..s.rx.popped])|
    ensures |Flatten(s.tx.log[..CountedFrames(s.tx)])| - s.tx.acked <= WINDOW
    ensures forall i :: 0 <= i < |s.tx.log| ==> |s.tx.log[i]| > 0
  {
    hide Acks.CountAll, NetInv, Encode;
    AckChain(s);
    TakenBound(s.tx.log, Published(s.tx), s.rx);
    FlattenMonotone(s.tx.log, Settled(s.rx), s.rx.popped);
  }

  /** Between the expected frame and any published one lie at most a window of unacknowledged bytes. */
  lemma UnackedBetween(s: State, n: nat)
    requires Inv(s) && s.rx.popped <= n < Published(s.tx)
    ensures |Flatten(s.tx.log[s.rx.popped..n])| < WINDOW
  {
    var log, p := s.tx.log, s.rx.popped;
    ConsumedBound(s);
    hide Inv, Published, CountedFrames, Flatten;
    SliceSize(log, p, n);
    FlattenMonotone(log, n + 1, CountedFrames(s.tx));
  }

  /** With large payloads the credit window alone keeps every frame in flight inside the buffer: the
      order in which the network delivers them does not matter. */
  lemma LargePayloadsNeverRefused(s: State, f: bytes)
    requires Inv(s) && f in s.net && s.rx.rcv.size > 0 && Large(s.tx.log, s.rx.rcv.size)
    ensures !Refused(s.rx, f)
  {
    assert Genuine(s.tx.log, Published(s.tx), f);
    var n, p, size := Decode(f).number, s.rx.popped, s.rx.rcv.size;
    assert p == s.rx.rcv.next && Published(s.tx) <= |s.tx.log|;
    if n >= p + size {
      UnackedBetween(s, n);
      hide *;
      var between := s.tx.log[p..n];
      assert forall i :: 0 <= i < |between| ==> |between[i]| * size >= WINDOW by { LargeSlice(s.tx.log, size, p, n); }
      TooFewBytes(|Flatten(between)|, size, |between|);
      LargeSize(between, size);
    }
  }

  lemma LargeSlice(log: seq<bytes>, size: nat, p: nat, n: nat)
    requires p <= n < |log| && Large(log, size)
    ensures forall i :: 0 <= i < n - p ==> |log[p..n][i]| * size >= WINDOW
  {
  }

  lemma TooFewBytes(total: nat, size: nat, count: nat)
    requires total < WINDOW && count >= size > 0
    ensures total * size < count * WINDOW
  {
    assert total * size < WINDOW * size <= WINDOW * count;
  }

  /** Like faultless, but frames may arrive in any order. */
  ghost predicate Lossless(s: State, step: Step) {
    step.Arrive? || Faultless(s, step)
  }

  ghost predicate LosslessRun(s: State, steps: seq<Step>, t: State)
    decreases |steps|
  {
    if steps == [] then s == t
    else Enabled(s, steps[0]) && Lossless(s, steps[0]) && LosslessRun(Apply(s, steps[0]), steps[1..], t)
  }

  lemma {:induction false} LosslessRunGrows(s: State, steps: seq<Step>, t: State)
    requires LosslessRun(s, steps, t)
    ensures s.tx.log <= t.tx.log
    decreases |steps|
  {
    if steps != [] {
      if steps[0].Tx? { TxGrows(s.tx, steps[0].tx); }
      LosslessRunGrows(Apply(s, steps[0]), steps[1..], t);
    }
  }

  lemma {:induction false} LargeRunIsFaultless(s: State, steps: seq<Step>, t: State)
    requires Inv(s) && s.rx.rcv.size > 0 && LosslessRun(s, steps, t)
    requires |t.tx.log| < TWO_32 && Large(t.tx.log, s.rx.rcv.size)
    ensures FaultlessRun(s, steps, t)
    decreases |steps|
  {
    if steps != [] {
      LosslessRunGrows(s, steps, t);
      var s' := Apply(s, steps[0]);
      LosslessRunGrows(s', steps[1..], t);
      if steps[0].Arrive? { LargePayloadsNeverRefused(s, steps[0].frame); }
      StepKeepsInv(s, steps[0]);
      SizeStays(s, steps[0]);
      LargeRunIsFaultless(s', steps[1..], t);
    }
  }

  lemma SizeStays(s: State, step: Step)
    requires Enabled(s, step)
    ensures Apply(s, step).rx.rcv.size == s.rx.rcv.size
  {
  }

  ghost predicate LosslessInternalRun(s: State, steps: seq<Step>, t: State) {
    LosslessRun(s, steps, t) && forall step <- steps :: Internal(step)
  }

  /** No step of the program or of a network that delivers in any order is left. */
  ghost predicate LosslessStuck(s: State) {
    forall step :: Enabled(s, step) && Lossless(s, step) ==> !Internal(step)
  }

  lemma {:induction false} InternalRunKeepsPlan(s: State, steps: seq<Step>, t: State)
    requires Inv(s) && FramesFit(s.tx) && LosslessInternalRun(s, steps, t)
    ensures |t.tx.log| < TWO_32 && t.tx.log <= Plan(s.tx)
    decreases |steps|
  {
    if steps != [] {
      assert steps[0] in steps;
      assert forall step <- steps[1..] :: step in steps;
      InvHasSender(s);
      StepFollowsPlan(s, steps[0]);
      StepKeepsFramesFit(s, steps[0]);
      StepKeepsInv(s, steps[0]);
      InternalRunKeepsPlan(Apply(s, steps[0]), steps[1..], t);
    }
  }

  lemma LargePrefix(payloads: seq<bytes>, all: seq<bytes>, size: nat)
    requires Large(all, size) && payloads <= all
    ensures Large(payloads, size)
  {
  }

  /** With large payloads (4096 bytes and more for the program's window and buffer) everything written
      is delivered under every lossless network, whatever the order of arrival. */
  lemma LargePayloadsDeliver(size: nat, before: seq<Step>, s: State)
    requires size > 0 && LosslessRun(Initial(size), before, s) && FramesFit(s.tx) && Large(Plan(s.tx), size)
    ensures exists steps, t :: LosslessInternalRun(s, steps, t) && Complete(t) && Flatten(t.rx.taken) == s.tx.given
    ensures forall steps, t :: LosslessInternalRun(s, steps, t) ==> |steps| <= Work(s)
    ensures forall steps, t :: LosslessInternalRun(s, steps, t) && LosslessStuck(t) ==> Flatten(t.rx.taken) == s.tx.given
  {
    LargeReachable(size, before, s);
    hide *;
    DeliveryPossible(s);
    var steps0, t0 :| InternalRun(s, steps0, t0) && Complete(t0) && Flatten(t0.rx.taken) == s.tx.given;
    InternalIsLossless(s, steps0, t0);
    forall steps, t | LosslessInternalRun(s, steps, t)
      ensures |steps| <= Work(s)
      ensures LosslessStuck(t) ==> Flatten(t.rx.taken) == s.tx.given
    {
      EveryLargeRunDelivers(s, steps, t);
    }
  }

  lemma LargeReachable(size: nat, before: seq<Step>, s: State)
    requires size > 0 && LosslessRun(Initial(size), before, s) && FramesFit(s.tx) && Large(Plan(s.tx), size)
    ensures Inv(s) && LiveInv(s) && s.rx.rcv.size == size
  {
    hide *;
    InitialInv(size);
    InitialSize(size);
    FitsNow(s.tx);
    LargePrefix(s.tx.log, Plan(s.tx), size);
    LargeRunIsFaultless(Initial(size), before, s);
    assert FaultlesslyReachable(size, s) by { FaultlessReaches(size, before, s); }
    FaultlesslyReachableInv(size, s);
    FaultlessSize(Initial(size), before, s);
  }

  lemma InitialSize(size: nat)
    ensures Initial(size).rx.rcv.size == size
  {
  }

  lemma FitsNow(tx: Sender)
    requires FramesFit(tx)
    ensures |tx.log| < TWO_32 && tx.log <= Plan(tx)
  {
  }

  lemma FaultlessReaches(size: nat, steps: seq<Step>, s: State)
    requires |s.tx.log| < TWO_32 && FaultlessRun(Initial(size), steps, s)
    ensures FaultlesslyReachable(size, s)
  {
  }

  lemma InternalIsLossless(s: State, steps: seq<Step>, t: State)
    requires InternalRun(s, steps, t)
    ensures LosslessInternalRun(s, steps, t)
  {
    FaultlessIsLossless(s, steps, t);
  }

  lemma EveryLargeRunDelivers(s: State, steps: seq<Step>, t: State)
    requires Inv(s) && LiveInv(s) && FramesFit(s.tx) && s.rx.rcv.size > 0 && Large(Plan(s.tx), s.rx.rcv.size)
    requires LosslessInternalRun(s, steps, t)
    ensures |steps| <= Work(s)
    ensures LosslessStuck(t) ==> Flatten(t.rx.taken) == s.tx.given
  {
    hide Inv, LiveInv, FramesFit, Plan, Large, Enabled, Faultless, Internal, Complete;
    InternalRunKeepsPlan(s, steps, t);
    LargePrefix(t.tx.log, Plan(s.tx), s.rx.rcv.size);
    LargeRunIsFaultless(s, steps, t);
    EveryRunDelivers(s, steps, t);
  }

  lemma {:induction false} FaultlessSize(s: State, steps: seq<Step>, t: State)
    requires FaultlessRun(s, steps, t)
    ensures t.rx.rcv.size == s.rx.rcv.size
    decreases |steps|
  {
    if steps != [] {
      SizeStays(s, steps[0]);
      FaultlessSize(Apply(s, steps[0]), steps[1..], t);
    }
  }

  lemma {:induction false} FaultlessIsLossless(s: State, steps: seq<Step>, t: State)
    requires FaultlessRun(s, steps, t)
    ensures LosslessRun(s, steps, t)
    decreases |steps|
  {
    if steps != [] { FaultlessIsLossless(Apply(s, steps[0]), steps[1..], t); }
  }
}
