/** How a session ends: the writer's application is done, a close message follows its last frame, and
    where it is heard the consumer stops, soon or after draining for a while. Whatever the consumer has
    not taken by then is lost, also on a network that loses nothing. */
module Ending {
  import opened Bytes
  import opened Frames
  import opened Writer
  import opened Stream
  import opened Delivery
  import R = Reorder

  /** One direction with the end of its writer. `closes` counts the close messages on their way to the
      reader. History: `missed` is how many frames the consumer had not taken when it stopped. */
  datatype System = System(s: State, finished: bool, closes: nat, heard: bool, stopped: bool, missed: nat)

  datatype Act =
    | Inner(step: Step)
    // the writer's end closes: end of its input, or a failed write
    | Finish
    // the close message is heard; then the buffer is closed and the consumer stops, in any order
    | CloseArrive | Stop
    // an ack for the writer's session, which is gone, is answered with a close message
    | Reject(ack: uint64)
    | CloseDuplicate | CloseDrop

  function Start(size: nat): System {
    System(Initial(size), false, 0, false, false, 0)
  }

  /** Nothing is written after the end, nothing consumed after the stop, and only a close message
      closes the buffer. */
  predicate Allowed(e: System, step: Step) {
    match step
    case Tx(event) => event.BeginWrite? ==> !e.finished
    case Rx(event) => event.Close? ==> e.heard && !e.s.rx.rcv.closed
    case Consume => !e.stopped
    case _ => true
  }

  predicate Possible(e: System, act: Act) {
    match act
    case Inner(step) => Enabled(e.s, step) && Allowed(e, step)
    case Finish => !e.finished && (e.s.tx.pc.Failed? || (e.s.tx.pc.Ready? && e.s.tx.rest == []))
    case CloseArrive => e.closes > 0
    case Stop => e.heard && !e.stopped
    case Reject(a) => e.finished && a in e.s.acks
    case CloseDuplicate => e.closes > 0
    case CloseDrop => e.closes > 0
  }

  function Missing(s: State): nat {
    if |s.tx.log| > |s.rx.taken| then |s.tx.log| - |s.rx.taken| else 0
  }

  function After(e: System, act: Act): System
    requires Possible(e, act)
  {
    match act
    case Inner(step) => e.(s := Apply(e.s, step))
    case Finish => e.(finished := true, closes := e.closes + 1)
    case CloseArrive => e.(heard := true, closes := e.closes - 1)
    case Stop => e.(stopped := true, missed := Missing(e.s))
    case Reject(a) => e.(s := e.s.(acks := e.s.acks - multiset{a}), closes := e.closes + 1)
    case CloseDuplicate => e.(closes := e.closes + 1)
    case CloseDrop => e.(closes := e.closes - 1)
  }

  ghost predicate EndRun(e: System, acts: seq<Act>, t: System)
    decreases |acts|
  {
    if acts == [] then e == t
    else Possible(e, acts[0]) && EndRun(After(e, acts[0]), acts[1..], t)
  }

  // ---- any network ----

  ghost predicate EndInv(e: System) {
    && Inv(e.s)
    && (e.finished ==> e.s.tx.pc.Failed? || (e.s.tx.pc.Ready? && e.s.tx.rest == []))
    && (e.heard || e.closes > 0 ==> e.finished)
    && (e.stopped || e.s.rx.rcv.closed ==> e.heard)
    && (e.stopped ==> e.missed == Missing(e.s))
  }

  lemma DropKeepsInv(s: State, a: uint64)
    requires Inv(s) && a in s.acks
    ensures Inv(s.(acks := s.acks - multiset{a}))
  {
    StepKeepsInv(s, AckDrop(a));
  }

  /** An ended writer numbers no more frames, and a stopped consumer takes none. */
  lemma InnerKeepsEnd(e: System, step: Step)
    requires EndInv(e) && Possible(e, Inner(step))
    ensures var t := Apply(e.s, step);
            && (e.finished ==> t.tx.pc == e.s.tx.pc && t.tx.rest == e.s.tx.rest && t.tx.log == e.s.tx.log)
            && (e.stopped ==> t.rx.taken == e.s.rx.taken)
            && (t.rx.rcv.closed ==> e.s.rx.rcv.closed || e.heard)
  {
    hide Inv, Missing, Encode, Decode, Chunk, Fits, AckDue, TotalWith;
  }

  lemma ActKeepsInv(e: System, act: Act)
    requires EndInv(e) && Possible(e, act) && |After(e, act).s.tx.log| < TWO_32
    ensures EndInv(After(e, act))
  {
    match act
    case Inner(step) =>
      StepKeepsInv(e.s, step);
      InnerKeepsEnd(e, step);
      hide Inv, Apply, Enabled;
    case Reject(a) => DropKeepsInv(e.s, a);
    case _ =>
  }

  lemma {:induction false} EndRunGrows(e: System, acts: seq<Act>, t: System)
    requires EndRun(e, acts, t)
    ensures |e.s.tx.log| <= |t.s.tx.log|
    decreases |acts|
  {
    if acts != [] {
      if acts[0].Inner? && acts[0].step.Tx? { TxGrows(e.s.tx, acts[0].step.tx); }
      EndRunGrows(After(e, acts[0]), acts[1..], t);
    }
  }

  lemma {:induction false} EndRunKeeps(e: System, acts: seq<Act>, t: System)
    requires EndInv(e) && EndRun(e, acts, t) && |t.s.tx.log| < TWO_32
    ensures EndInv(t)
    decreases |acts|
  {
    if acts != [] {
      hide EndInv, Possible, After;
      EndRunGrows(After(e, acts[0]), acts[1..], t);
      ActKeepsInv(e, acts[0]);
      EndRunKeeps(After(e, acts[0]), acts[1..], t);
    }
  }

  /** Whatever the network does: once the consumer has stopped, everything given has been delivered if
      and only if it had taken every frame by then, and the writer had nothing left to write. */
  lemma StoppedDeliversExactly(size: nat, acts: seq<Act>, e: System)
    requires EndRun(Start(size), acts, e) && |e.s.tx.log| < TWO_32 && e.stopped
    ensures Flatten(e.s.rx.taken) == e.s.tx.given <==> e.missed == 0 && e.s.tx.rest == []
  {
    InitialInv(size);
    EndRunKeeps(Start(size), acts, e);
    DeliveredExactly(e.s);
  }

  // ---- a network that loses and displaces nothing ----

  /** No fault but the end itself: frames for a session that is gone, and acks for one, are dropped. */
  ghost predicate Clean(e: System, act: Act) {
    match act
    case Inner(step) =>
      || Faultless(e.s, step)
      || (e.finished && step.AckDrop?)
      || (e.heard && (step == Rx(Close) || step == Rx(Abort)))
      || (e.stopped && step.Drop?)
    case CloseDrop => false
    case _ => true
  }

  ghost predicate CleanRun(e: System, acts: seq<Act>, t: System)
    decreases |acts|
  {
    if acts == [] then e == t
    else Possible(e, acts[0]) && Clean(e, acts[0]) && CleanRun(After(e, acts[0]), acts[1..], t)
  }

  ghost predicate CleanInv(e: System) {
    && EndInv(e)
    && (if e.finished then e.s.tx.pc.Ready? && (e.heard || e.closes > 0) else LiveInv(e.s))
  }

  lemma CleanActKeeps(e: System, act: Act)
    requires CleanInv(e) && Possible(e, act) && Clean(e, act) && |After(e, act).s.tx.log| < TWO_32
    ensures CleanInv(After(e, act))
  {
    ActKeepsInv(e, act);
    if act.Inner? {
      InnerKeepsEnd(e, act.step);
      if !e.finished { StepKeepsLive(e.s, act.step); }
      hide Inv, LiveInv, Apply, Enabled, Faultless;
    } else {
      FlowingIsNotFailed(e.s);
      hide Inv, LiveInv;
    }
  }

  lemma FlowingIsNotFailed(s: State)
    ensures LiveInv(s) ==> !s.tx.pc.Failed?
  {
  }

  lemma {:induction false} CleanIsEndRun(e: System, acts: seq<Act>, t: System)
    requires CleanRun(e, acts, t)
    ensures EndRun(e, acts, t)
    decreases |acts|
  {
    if acts != [] { CleanIsEndRun(After(e, acts[0]), acts[1..], t); }
  }

  lemma {:induction false} CleanRunKeeps(e: System, acts: seq<Act>, t: System)
    requires CleanInv(e) && CleanRun(e, acts, t) && |t.s.tx.log| < TWO_32
    ensures CleanInv(t)
    decreases |acts|
  {
    if acts != [] {
      hide CleanInv, Possible, After, Clean;
      CleanIsEndRun(After(e, acts[0]), acts[1..], t);
      EndRunGrows(After(e, acts[0]), acts[1..], t);
      CleanActKeeps(e, acts[0]);
      CleanRunKeeps(After(e, acts[0]), acts[1..], t);
    }
  }

  /** Acts of the program and of the network that are not new input and not duplication. */
  predicate InternalAct(act: Act) {
    match act
    case Inner(step) => Internal(step)
    case CloseDuplicate => false
    case _ => true
  }

  ghost predicate CleanInternalRun(e: System, acts: seq<Act>, t: System) {
    CleanRun(e, acts, t) && forall act <- acts :: InternalAct(act)
  }

  ghost predicate InOrderAct(e: System, act: Act) {
    act.Inner? ==> InOrder(e.s, act.step)
  }

  /** Nothing is left to happen on an orderly network. */
  ghost predicate EndStuck(e: System) {
    forall act :: Possible(e, act) && Clean(e, act) && InOrderAct(e, act) ==> !InternalAct(act)
  }

  lemma InnerProgress(e: System) returns (act: Act)
    requires CleanInv(e) && !e.finished
    ensures Possible(e, act) && Clean(e, act) && InOrderAct(e, act) && InternalAct(act)
  {
    if Complete(e.s) {
      act := Finish;
    } else {
      var step := Progress(e.s);
      act := Inner(step);
    }
  }

  /** Until the consumer has stopped, something can happen. */
  lemma EndProgress(e: System) returns (act: Act)
    requires CleanInv(e) && !e.stopped
    ensures Possible(e, act) && Clean(e, act) && InOrderAct(e, act) && InternalAct(act)
  {
    if !e.finished {
      act := InnerProgress(e);
    } else {
      act := if e.heard then Stop else CloseArrive;
    }
  }

  function EndWork(e: System): nat {
    Work(e.s) + 2 * e.closes + (if e.finished then 0 else 8) + (if e.stopped then 0 else 1)
    + if e.s.rx.rcv.closed then 0 else 1
  }

  lemma AbortWorkFalls(s: State)
    requires Enabled(s, Rx(Abort))
    ensures Work(Apply(s, Rx(Abort))) < Work(s) && Apply(s, Rx(Abort)).rx.rcv.closed == s.rx.rcv.closed
  {
  }

  lemma DropWorkFalls(s: State, step: Step)
    requires Enabled(s, step) && (step.Drop? || step.AckDrop?)
    ensures Work(Apply(s, step)) < Work(s) && Apply(s, step).rx == s.rx
  {
    if step.Drop? {
      assert |s.net - multiset{step.frame}| == |s.net| - 1;
    } else {
      assert |s.acks - multiset{step.ack}| == |s.acks| - 1;
    }
  }

  lemma CloseWork(s: State)
    ensures Work(Apply(s, Rx(Close))) == Work(s) && Apply(s, Rx(Close)).rx.rcv.closed
  {
  }

  lemma FaultlessKeepsOpen(s: State, step: Step)
    requires Enabled(s, step) && Faultless(s, step)
    ensures Apply(s, step).rx.rcv.closed == s.rx.rcv.closed
  {
  }

  lemma InnerWorkFalls(e: System, step: Step)
    requires Inv(e.s) && Possible(e, Inner(step)) && Clean(e, Inner(step)) && Internal(step)
    ensures EndWork(After(e, Inner(step))) < EndWork(e)
  {
    if step == Rx(Close) {
      CloseWork(e.s);
    } else if step == Rx(Abort) {
      AbortWorkFalls(e.s);
    } else if step.Drop? || step.AckDrop? {
      DropWorkFalls(e.s, step);
    } else {
      WorkFalls(e.s, step);
      FaultlessKeepsOpen(e.s, step);
    }
    hide Work, Apply, Enabled, Faultless, Inv;
  }

  lemma EndWorkFalls(e: System, act: Act)
    requires EndInv(e) && Possible(e, act) && Clean(e, act) && InternalAct(act)
    ensures EndWork(After(e, act)) < EndWork(e)
  {
    match act
    case Inner(step) => InnerWorkFalls(e, step);
    case Reject(a) => assert |e.s.acks - multiset{a}| == |e.s.acks| - 1;
    case _ => hide Work;
  }

  lemma InternalKeepsFit(e: System, act: Act)
    requires EndInv(e) && FramesFit(e.s.tx) && Possible(e, act) && InternalAct(act)
    ensures FramesFit(After(e, act).s.tx) && After(e, act).s.tx.given == e.s.tx.given
    ensures |After(e, act).s.tx.log| < TWO_32
  {
    if act.Inner? { StepKeepsFramesFit(e.s, act.step); }
  }

  lemma CleanInternalAct(e: System, act: Act)
    requires CleanInv(e) && FramesFit(e.s.tx) && Possible(e, act) && Clean(e, act) && InternalAct(act)
    ensures var t := After(e, act);
            CleanInv(t) && FramesFit(t.s.tx) && t.s.tx.given == e.s.tx.given && EndWork(t) < EndWork(e)
  {
    assert EndInv(e);
    hide *;
    InternalKeepsFit(e, act);
    CleanActKeeps(e, act);
    EndWorkFalls(e, act);
  }

  lemma StoppedMeansFinished(e: System)
    requires CleanInv(e) && e.stopped
    ensures e.finished
    ensures Flatten(e.s.rx.taken) == e.s.tx.given <==> e.missed == 0
  {
    DeliveredExactly(e.s);
  }

  /** However it is scheduled, a session comes to its end, and what decides is what the consumer had not
      taken when it stopped. */
  lemma {:induction false} EveryCleanRunEnds(e: System, acts: seq<Act>, t: System)
    requires CleanInv(e) && FramesFit(e.s.tx) && CleanInternalRun(e, acts, t)
    ensures |acts| + EndWork(t) <= EndWork(e)
    ensures t.stopped || EndStuck(t) ==>
              t.finished && t.stopped && (Flatten(t.s.rx.taken) == e.s.tx.given <==> t.missed == 0)
    decreases |acts|
  {
    hide CleanInv, FramesFit, EndWork, Possible, After, Clean, InternalAct, InOrderAct;
    if acts == [] {
      if t.stopped {
        StoppedMeansFinished(t);
      } else {
        var act := EndProgress(t);
      }
    } else {
      assert acts[0] in acts;
      assert forall act <- acts[1..] :: act in acts;
      CleanInternalAct(e, acts[0]);
      EveryCleanRunEnds(After(e, acts[0]), acts[1..], t);
    }
  }

  // ---- some schedule delivers ----

  lemma InnerIsClean(e: System, step: Step)
    requires CleanInv(e) && !e.finished && Enabled(e.s, step) && Faultless(e.s, step) && Internal(step)
    ensures Possible(e, Inner(step)) && Clean(e, Inner(step)) && InternalAct(Inner(step))
    ensures After(e, Inner(step)) == e.(s := Apply(e.s, step))
  {
    hide Enabled, Apply, Inv, LiveInv;
  }

  lemma ActThenRun(e: System, act: Act, acts: seq<Act>, t: System)
    requires Possible(e, act) && Clean(e, act) && InternalAct(act) && CleanInternalRun(After(e, act), acts, t)
    ensures CleanInternalRun(e, [act] + acts, t)
  {
    assert ([act] + acts)[1..] == acts;
  }

  /** The writer ends, the close message is heard, and the consumer stops. */
  lemma FinishRun(e: System) returns (acts: seq<Act>, t: System)
    requires !e.finished && !e.stopped && e.s.tx.pc.Ready? && e.s.tx.rest == []
    ensures CleanInternalRun(e, acts, t) && t.stopped && t.s == e.s
  {
    var e1 := After(e, Finish);
    var e2 := After(e1, CloseArrive);
    t := After(e2, Stop);
    assert CleanInternalRun(t, [], t);
    ActThenRun(e2, Stop, [], t);
    ActThenRun(e1, CloseArrive, [Stop] + [], t);
    acts := [Finish] + ([CloseArrive] + ([Stop] + []));
    ActThenRun(e, Finish, [CloseArrive] + ([Stop] + []), t);
  }

  lemma LiveParts(e: System)
    requires CleanInv(e) && !e.finished
    ensures Inv(e.s) && LiveInv(e.s) && !e.stopped
  {
  }

  lemma {:induction false} SomeScheduleDelivers(e: System) returns (acts: seq<Act>, t: System)
    requires CleanInv(e) && FramesFit(e.s.tx) && !e.finished
    ensures CleanInternalRun(e, acts, t) && t.stopped && Flatten(t.s.rx.taken) == e.s.tx.given
    decreases Work(e.s)
  {
    hide CleanInv, FramesFit, Work, Possible, After, Clean, InternalAct, CleanInternalRun, Enabled, Apply, Faultless, Internal, Inv, LiveInv;
    LiveParts(e);
    if Complete(e.s) {
      CompleteMeansDelivered(e.s);
      acts, t := FinishRun(e);
    } else {
      var step := Progress(e.s);
      InnerIsClean(e, step);
      var e' := After(e, Inner(step));
      CleanInternalAct(e, Inner(step));
      WorkFalls(e.s, step);
      acts, t := SomeScheduleDelivers(e');
      ActThenRun(e, Inner(step), acts, t);
      acts := [Inner(step)] + acts;
    }
  }

  /** A session on a network that loses and displaces nothing, from its start to its end: every run is
      finite; where it cannot go on, the consumer has stopped, and everything given was delivered if and
      only if the consumer had taken every published frame by then; and some schedule delivers. */
  lemma SessionEnds(size: nat, before: seq<Act>, e: System)
    requires size > 0 && CleanRun(Start(size), before, e) && FramesFit(e.s.tx)
    ensures forall acts, t :: CleanInternalRun(e, acts, t) ==> |acts| <= EndWork(e)
    ensures forall acts, t :: CleanInternalRun(e, acts, t) && EndStuck(t) ==>
              t.finished && t.stopped && (Flatten(t.s.rx.taken) == e.s.tx.given <==> t.missed == 0)
    ensures !e.finished ==>
              exists acts, t :: CleanInternalRun(e, acts, t) && t.stopped && Flatten(t.s.rx.taken) == e.s.tx.given
  {
    StartLives(size);
    CleanRunKeeps(Start(size), before, e);
    hide *;
    forall acts, t | CleanInternalRun(e, acts, t)
      ensures |acts| <= EndWork(e)
      ensures EndStuck(t) ==> t.finished && t.stopped && (Flatten(t.s.rx.taken) == e.s.tx.given <==> t.missed == 0)
    {
      EveryCleanRunEnds(e, acts, t);
    }
    if !e.finished {
      var acts, t := SomeScheduleDelivers(e);
    }
  }

  lemma StartLives(size: nat)
    requires size > 0
    ensures CleanInv(Start(size))
  {
    InitialInv(size);
  }

  // ---- some schedule loses ----

  ghost predicate CleanReachable(size: nat, e: System) {
    exists acts :: CleanRun(Start(size), acts, e)
  }

  lemma {:induction false} CleanRunSnoc(e: System, acts: seq<Act>, t: System, act: Act)
    requires CleanRun(e, acts, t) && Possible(t, act) && Clean(t, act)
    ensures CleanRun(e, acts + [act], After(t, act))
    decreases |acts|
  {
    if acts == [] {
      assert [act][1..] == [];
      assert CleanRun(After(e, act), [], After(t, act));
    } else {
      CleanRunSnoc(After(e, acts[0]), acts[1..], t, act);
      assert (acts + [act])[1..] == acts[1..] + [act];
    }
  }

  lemma ReachAct(size: nat, e: System, act: Act)
    requires CleanReachable(size, e) && Possible(e, act) && Clean(e, act)
    ensures CleanReachable(size, After(e, act))
  {
    var acts :| CleanRun(Start(size), acts, e);
    CleanRunSnoc(Start(size), acts, e, act);
  }

  function Open(s: State): System {
    System(s, false, 0, false, false, 0)
  }

  lemma ReachInner(size: nat, s: State, step: Step, t: State)
    requires CleanReachable(size, Open(s)) && Enabled(s, step) && Faultless(s, step) && Apply(s, step) == t
    ensures CleanReachable(size, Open(t))
  {
    ReachAct(size, Open(s), Inner(step));
  }

  /** The sender after writing the one chunk `b`. */
  function Sent(b: bytes): Sender
    requires |b| < TWO_64
  {
    Sender([], Pc.Ready, 1, |b|, 0, false, b, [b])
  }

  function PublishedOne(size: nat, b: bytes): State
    requires |b| < TWO_64
  {
    State(Sent(b), multiset{Encode(0, b)}, multiset{}, Initial(size).rx)
  }

  lemma ReachPublished(size: nat, b: bytes)
    requires 0 < |b| <= MAX_PAYLOAD
    ensures CleanReachable(size, Open(PublishedOne(size, b)))
  {
    var s0 := Initial(size);
    assert CleanRun(Start(size), [], Open(s0));
    var f := Encode(0, b);
    var tx1 := s0.tx.(rest := b, given := b);
    ReachInner(size, s0, Tx(BeginWrite(b)), s0.(tx := tx1));
    var tx2 := tx1.(pc := Admitted);
    ReachInner(size, s0.(tx := tx1), Tx(Check), s0.(tx := tx2));
    var tx3 := Sender([], Numbered(f, |b|), 1, 0, 0, false, b, [b]);
    ReachInner(size, s0.(tx := tx2), Tx(Number), s0.(tx := tx3));
    var tx4 := Sender([], Counted(f), 1, |b|, 0, false, b, [b]);
    ReachInner(size, s0.(tx := tx3), Tx(Count), s0.(tx := tx4));
    ReachInner(size, s0.(tx := tx4), Publish, PublishedOne(size, b));
  }

  /** The one payload is in the channel; nothing is in flight. */
  function InChannel(size: nat, b: bytes): State
    requires |b| < TWO_64
  {
    State(Sent(b), multiset{}, multiset{}, Reader(R.Receiver(map[], 1, size, [b], R.Idle, false), 0, 0, 1, [0], [], {0}))
  }

  lemma ReachInChannel(size: nat, b: bytes)
    requires size > 0 && 0 < |b| <= MAX_PAYLOAD
    ensures CleanReachable(size, Open(InChannel(size, b)))
  {
    ReachPublished(size, b);
    var s0 := PublishedOne(size, b);
    DecodeEncode(0, b);
    hide Encode, Decode;
    var rcv1 := R.Receiver(map[0 := b], 0, size, [], R.Draining, false);
    var s1 := State(Sent(b), multiset{}, multiset{}, Reader(rcv1, 0, 0, 0, [], [], {0}));
    ReachInner(size, s0, Arrive(Encode(0, b)), s1);
    var rcv2 := R.Receiver(map[], 1, size, [], R.Sending(b), false);
    var s2 := s1.(rx := Reader(rcv2, 0, 0, 1, [], [], {0}));
    ReachInner(size, s1, Rx(Pop), s2);
    var rcv3 := R.Receiver(map[], 1, size, [b], R.Draining, false);
    var s3 := s1.(rx := Reader(rcv3, 0, 0, 1, [0], [], {0}));
    ReachInner(size, s2, Rx(Push), s3);
    ReachInner(size, s3, Rx(Done), InChannel(size, b));
  }

  /** The end of a session whose consumer is idle: the writer ends, the close is heard, the consumer
      stops, and the buffer is closed. */
  function Ended(s: State): System {
    System(s.(rx := s.rx.(rcv := s.rx.rcv.(closed := true))), true, 0, true, true, Missing(s))
  }

  lemma ReachEnded(size: nat, s: State)
    requires CleanReachable(size, Open(s)) && s.tx.pc.Ready? && s.tx.rest == [] && !s.rx.rcv.closed
    ensures CleanReachable(size, Ended(s))
  {
    var e0 := Open(s);
    var e1 := After(e0, Finish);
    ReachAct(size, e0, Finish);
    var e2 := After(e1, CloseArrive);
    ReachAct(size, e1, CloseArrive);
    var e3 := After(e2, Stop);
    ReachAct(size, e2, Stop);
    ReachAct(size, e3, Inner(Rx(Close)));
    assert After(e3, Inner(Rx(Close))) == Ended(s);
  }

  lemma EndedIsStuck(s: State)
    requires s.tx.pc.Ready? && s.tx.rest == [] && s.net == multiset{} && s.acks == multiset{} && s.rx.rcv.phase.Idle?
    ensures EndStuck(Ended(s))
  {
  }

  /** Of every chunk a session can end with, also the only one, some schedule loses all: it waits in the
      channel when the close message is heard, and the consumer does not come to take it. */
  lemma EndCanLose(size: nat, b: bytes)
    requires size > 0 && 0 < |b| <= MAX_PAYLOAD
    ensures exists t :: CleanReachable(size, t) && EndStuck(t) && t.s.tx.given == b && t.s.rx.taken == []
  {
    ReachInChannel(size, b);
    var s := InChannel(size, b);
    ReachEnded(size, s);
    EndedIsStuck(s);
    assert Ended(s).s.tx.given == b && Ended(s).s.rx.taken == [];
  }

  /** The writer cannot tell: the session can end delivered and undelivered with the same sender and the
      same acks, because less than one ack interval is never acknowledged. */
  lemma WriterCannotTell(size: nat, b: bytes)
    requires size > 0 && 0 < |b| < MAX_PAYLOAD
    ensures exists t, t' ::
              && CleanReachable(size, t) && CleanReachable(size, t') && EndStuck(t) && EndStuck(t')
              && t.s.tx == t'.s.tx && t.s.acks == t'.s.acks && t.s.net == t'.s.net
              && Flatten(t.s.rx.taken) == t.s.tx.given && Flatten(t'.s.rx.taken) != t'.s.tx.given
  {
    ReachInChannel(size, b);
    var s' := InChannel(size, b);
    ReachEnded(size, s');
    EndedIsStuck(s');
    var s := State(Sent(b), multiset{}, multiset{},
                   Reader(R.Receiver(map[], 1, size, [], R.Idle, false), |b|, 0, 1, [0], [b], {0}));
    ReachInner(size, s', Consume, s);
    ReachEnded(size, s);
    EndedIsStuck(s);
    assert Flatten([b]) == b + Flatten([]) == b;
    assert Flatten(Ended(s).s.rx.taken) == Ended(s).s.tx.given;
    assert Flatten(Ended(s').s.rx.taken) != Ended(s').s.tx.given;
  }
}
