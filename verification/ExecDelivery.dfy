/** Exec sessions: the device passes no ack on to their window (internal/device/device.go), so that one
    window is all they ever send. */
module ExecDelivery {
  import opened Bytes
  import opened Frames
  import opened Stream
  import opened Delivery

  /** The device leaves the window of an exec session unchanged by acks (`Device.HandleAck`), so no ack
      ever reaches it. */
  ghost predicate NoCreditReturned(steps: seq<Step>) {
    forall step <- steps :: !step.AckArrive?
  }

  lemma {:induction false} FrameCount(payloads: seq<bytes>)
    requires forall i :: 0 <= i < |payloads| ==> |payloads[i]| > 0
    ensures |payloads| <= |Flatten(payloads)|
  {
    if payloads != [] { FrameCount(payloads[1..]); }
  }

  /** Without returned credit the writer stops within its first window. */
  lemma UncreditedBound(tx: Sender)
    requires SenderInv(tx) && CreditInv(tx) && tx.acked == 0
    ensures |tx.log| <= |Flatten(tx.log)| <= WINDOW
  {
    FrameCount(tx.log);
    SentBound(tx);
  }

  lemma UncreditedStep(s: State, step: Step)
    requires Inv(s) && s.tx.acked == 0 && Enabled(s, step) && !step.AckArrive?
    ensures Inv(Apply(s, step)) && Apply(s, step).tx.acked == 0 && |Apply(s, step).tx.log| < TWO_32
  {
    UncreditedBound(s.tx);
    if step.Tx? { TxGrows(s.tx, step.tx); }
    StepKeepsInv(s, step);
  }

  lemma {:induction false} UncreditedRun(s: State, steps: seq<Step>, t: State)
    requires Inv(s) && s.tx.acked == 0 && Run(s, steps, t) && NoCreditReturned(steps)
    ensures Inv(t) && t.tx.acked == 0
    decreases |steps|
  {
    if steps != [] {
      assert steps[0] in steps;
      assert forall step <- steps[1..] :: step in steps;
      UncreditedStep(s, steps[0]);
      UncreditedRun(Apply(s, steps[0]), steps[1..], t);
    }
  }

  /** An exec session sends at most one window over its whole run; a command with more output than
      that is never delivered completely. */
  lemma ExecOutputIsCapped(size: nat, steps: seq<Step>, s: State)
    requires Run(Initial(size), steps, s) && NoCreditReturned(steps)
    ensures |Flatten(s.rx.taken)| <= s.tx.sent <= 262144
    ensures |s.tx.given| > 262144 ==> Flatten(s.rx.taken) != s.tx.given
  {
    InitialInv(size);
    UncreditedRun(Initial(size), steps, s);
    AckChain(s);
  }

  /** A step of an exec session without faults: acks are dropped, nothing else is. */
  ghost predicate Uncredited(s: State, step: Step) {
    step.AckDrop? || (Faultless(s, step) && !step.AckArrive?)
  }

  ghost predicate ExecRun(s: State, steps: seq<Step>, t: State)
    decreases |steps|
  {
    if steps == [] then s == t
    else Enabled(s, steps[0]) && Uncredited(s, steps[0]) && ExecRun(Apply(s, steps[0]), steps[1..], t)
  }

  ghost predicate ExecInternalRun(s: State, steps: seq<Step>, t: State) {
    ExecRun(s, steps, t) && forall step <- steps :: Internal(step)
  }

  /** No step of an exec session on a faultless, orderly network is left. */
  ghost predicate ExecStuck(s: State) {
    forall step :: Enabled(s, step) && Uncredited(s, step) && InOrder(s, step) ==> !Internal(step)
  }

  ghost predicate ExecInv(s: State) {
    Inv(s) && Flowing(s) && s.tx.acked == 0 && (s.tx.pc.Waiting? ==> !Fits(s.tx))
  }

  /** Had the last ack been in flight, this would be a live session. */
  function WithLastAck(s: State): State {
    s.(acks := s.acks + multiset{s.rx.last})
  }

  lemma WithLastAckLives(s: State)
    requires ExecInv(s)
    ensures Inv(WithLastAck(s)) && LiveInv(WithLastAck(s))
  {
  }

  lemma AcksAside(s: State, step: Step)
    requires Enabled(s, step) && !step.AckDrop? && !step.AckArrive?
    ensures Enabled(WithLastAck(s), step)
    ensures var t, t' := Apply(s, step), Apply(WithLastAck(s), step);
            t.tx == t'.tx && t.net == t'.net && t.rx == t'.rx
    ensures Faultless(s, step) <==> Faultless(WithLastAck(s), step)
  {
  }

  lemma FlowingAside(s: State, t: State)
    requires Flowing(s) && t.tx == s.tx && t.net == s.net && t.rx == s.rx
    ensures Flowing(t)
  {
  }

  lemma ExecStepFlows(s: State, step: Step)
    requires ExecInv(s) && Enabled(s, step) && Uncredited(s, step)
    ensures Flowing(Apply(s, step))
  {
    if step.AckDrop? {
      FlowingAside(s, Apply(s, step));
    } else {
      WithLastAckLives(s);
      AcksAside(s, step);
      StepKeepsLive(WithLastAck(s), step);
      FlowingAside(Apply(WithLastAck(s), step), Apply(s, step));
    }
  }

  lemma WaitingStaysBlocked(s: State, step: Step)
    requires s.tx.pc.Waiting? ==> !Fits(s.tx)
    requires Enabled(s, step) && !step.AckArrive?
    ensures Apply(s, step).tx.pc.Waiting? ==> !Fits(Apply(s, step).tx)
  {
  }

  lemma ExecStepKeeps(s: State, step: Step)
    requires ExecInv(s) && Enabled(s, step) && Uncredited(s, step)
    ensures ExecInv(Apply(s, step))
  {
    ExecStepFlows(s, step);
    UncreditedStep(s, step);
    WaitingStaysBlocked(s, step);
  }

  lemma {:induction false} ExecRunKeeps(s: State, steps: seq<Step>, t: State)
    requires ExecInv(s) && ExecRun(s, steps, t)
    ensures ExecInv(t)
    decreases |steps|
  {
    if steps != [] {
      ExecStepKeeps(s, steps[0]);
      ExecRunKeeps(Apply(s, steps[0]), steps[1..], t);
    }
  }

  /** While all that was given fits one window, so does the next chunk. */
  lemma ExecChunkFits(tx: Sender)
    requires SenderInv(tx) && tx.acked == 0 && |tx.given| <= WINDOW && tx.rest != [] && !tx.pc.Numbered?
    ensures Fits(tx)
  {
    SentBound(tx);
  }

  lemma ExecWriterCanGoOn(s: State) returns (step: Step)
    requires ExecInv(s) && !Complete(s) && Quiet(s) && |s.tx.given| <= WINDOW
    ensures Enabled(s, step) && Uncredited(s, step) && Internal(step) && InOrder(s, step)
  {
    match s.tx.pc
    case Ready => step := Tx(Check);
    case Waiting => ExecChunkFits(s.tx);
    case Admitted => step := Tx(Number);
    case Numbered(_, _) => step := Tx(Count);
    case Counted(_) => step := Publish;
  }

  lemma ExecProgress(s: State) returns (step: Step)
    requires ExecInv(s) && !Complete(s) && |s.tx.given| <= WINDOW
    ensures Enabled(s, step) && Uncredited(s, step) && Internal(step) && InOrder(s, step)
  {
    if !(s.rx.rcv.phase.Idle? && s.rx.rcv.ch == []) {
      step := ReceiverCanGoOn(s);
    } else if s.acks != multiset{} {
      var a :| a in s.acks;
      step := AckDrop(a);
    } else if s.net != multiset{} {
      step := FrameCanArrive(s);
    } else {
      step := ExecWriterCanGoOn(s);
    }
  }

  lemma ExecWorkFalls(s: State, step: Step)
    requires Inv(s) && Enabled(s, step) && Uncredited(s, step) && Internal(step)
    ensures Work(Apply(s, step)) < Work(s) && Apply(s, step).tx.given == s.tx.given
  {
    if step.AckDrop? {
      assert |s.acks - multiset{step.ack}| == |s.acks| - 1;
    } else {
      WorkFalls(s, step);
    }
  }

  lemma ExecCompleteMeansDelivered(s: State)
    requires ExecInv(s) && Complete(s)
    ensures Flatten(s.rx.taken) == s.tx.given && ExecInternalRun(s, [], s)
  {
    QuietMeansDelivered(s);
  }

  /** However it is scheduled, an exec session with at most one window of output comes to its end, and
      then all of it is delivered. */
  lemma {:induction false} EveryExecRunDelivers(s: State, steps: seq<Step>, t: State)
    requires ExecInv(s) && |s.tx.given| <= WINDOW && ExecInternalRun(s, steps, t)
    ensures |steps| + Work(t) <= Work(s) && t.tx.given == s.tx.given
    ensures ExecStuck(t) ==> Complete(t) && Flatten(t.rx.taken) == s.tx.given
    decreases |steps|
  {
    hide ExecInv, Work, Enabled, Apply, Uncredited, Internal, Complete;
    if steps == [] {
      if Complete(s) {
        ExecCompleteMeansDelivered(s);
      } else {
        var step := ExecProgress(s);
      }
    } else {
      assert steps[0] in steps;
      assert forall step <- steps[1..] :: step in steps;
      ExecStepKeeps(s, steps[0]);
      ExecWorkFalls(s, steps[0]) by { assert Inv(s) by { ExecHasInv(s); } }
      EveryExecRunDelivers(Apply(s, steps[0]), steps[1..], t);
    }
  }

  lemma ExecHasInv(s: State)
    requires ExecInv(s)
    ensures Inv(s) && s.tx.acked == 0
  {
  }

  lemma StepThenExecRun(s: State, step: Step, steps: seq<Step>, t: State)
    requires Enabled(s, step) && Uncredited(s, step) && Internal(step) && ExecInternalRun(Apply(s, step), steps, t)
    ensures ExecInternalRun(s, [step] + steps, t)
  {
    assert ([step] + steps)[1..] == steps;
  }

  lemma {:induction false} ExecDeliveryPossible(s: State)
    requires ExecInv(s) && |s.tx.given| <= WINDOW
    ensures exists steps, t :: ExecInternalRun(s, steps, t) && Flatten(t.rx.taken) == s.tx.given
    decreases Work(s)
  {
    hide *;
    if Complete(s) {
      ExecCompleteMeansDelivered(s);
    } else {
      var step := ExecProgress(s);
      ExecStepKeeps(s, step);
      ExecHasInv(s);
      ExecWorkFalls(s, step);
      ExecDeliveryPossible(Apply(s, step));
      var steps, t :| ExecInternalRun(Apply(s, step), steps, t) && Flatten(t.rx.taken) == s.tx.given;
      StepThenExecRun(s, step, steps, t);
    }
  }

  lemma {:induction false} ExecRunKeepsGiven(s: State, steps: seq<Step>, t: State)
    requires ExecInternalRun(s, steps, t)
    ensures t.tx.given == s.tx.given
    decreases |steps|
  {
    if steps != [] {
      assert steps[0] in steps;
      assert forall step <- steps[1..] :: step in steps;
      ExecRunKeepsGiven(Apply(s, steps[0]), steps[1..], t);
    }
  }

  /** An exec session on a faultless network can deliver its output if and only if that is at most one
      window; and then every schedule does. */
  lemma ExecDeliversExactly(size: nat, before: seq<Step>, s: State)
    requires size > 0 && ExecRun(Initial(size), before, s)
    ensures |s.tx.given| <= 262144 <==>
            exists steps, t :: ExecInternalRun(s, steps, t) && Flatten(t.rx.taken) == s.tx.given
    ensures |s.tx.given| <= 262144 ==>
              forall steps, t :: ExecInternalRun(s, steps, t) ==>
                |steps| <= Work(s) && (ExecStuck(t) ==> Flatten(t.rx.taken) == s.tx.given)
  {
    InitialInv(size);
    ExecRunKeeps(Initial(size), before, s);
    if |s.tx.given| <= WINDOW {
      ExecDeliveryPossible(s);
      forall steps, t | ExecInternalRun(s, steps, t)
        ensures |steps| <= Work(s) && (ExecStuck(t) ==> Flatten(t.rx.taken) == s.tx.given)
      {
        EveryExecRunDelivers(s, steps, t);
      }
    }
    forall steps, t | ExecInternalRun(s, steps, t) ensures |Flatten(t.rx.taken)| <= WINDOW && t.tx.given == s.tx.given {
      ExecRunKeeps(s, steps, t);
      ExecRunKeepsGiven(s, steps, t);
      UncreditedBound(t.tx);
      TakenBound(t.tx.log, Published(t.tx), t.rx);
    }
  }
}
