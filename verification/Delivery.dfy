/** What the composition of window, ack interval and payload limit guarantees when the network loses
    nothing and displaces no frame too far: no deadlock, and everything written is delivered. */
module Delivery {
  import opened Bytes
  import opened Frames
  import opened Stream
  import Acks
  import Credit
  import opened Writer
  import R = Reorder

  /** The frame arrives only after all frames `size` or more places before it. */
  ghost predicate Orderly(rx: Reader, f: bytes) {
    var d := Decode(f);
    d.Decoded? ==> forall j: nat :: j + rx.rcv.size <= d.number ==> j in rx.arrived
  }

  /** The buffer answers the frame with `ErrBufferFull`. */
  predicate Refused(rx: Reader, f: bytes) {
    var d := Decode(f);
    d.Decoded? && R.Judge(rx.rcv.buf, rx.rcv.next, rx.rcv.size, d.number).Full?
  }

  /** Nothing is lost, cancelled, refused by the broker or closed, and a frame arrives in an orderly
      way or at least when the buffer has room for it. */
  ghost predicate Faultless(s: State, step: Step) {
    match step
    case Tx(e) => !e.Cancel? && !e.PublishFail?
    case Rx(e) => !e.Abort? && !e.Close?
    case Arrive(f) => Orderly(s.rx, f) || !Refused(s.rx, f)
    case Drop(_) => false
    case AckDrop(_) => false
    case _ => true
  }

  ghost predicate FaultlessRun(s: State, steps: seq<Step>, t: State)
    decreases |steps|
  {
    if steps == [] then s == t
    else Enabled(s, steps[0]) && Faultless(s, steps[0]) && FaultlessRun(Apply(s, steps[0]), steps[1..], t)
  }

  ghost predicate Accepted(rx: Reader, i: nat) {
    i < rx.popped || i in rx.rcv.buf
  }

  /** Every published frame is still in flight or has arrived; what has arrived is accepted. */
  ghost predicate NothingLost(tx: Sender, net: multiset<bytes>, rx: Reader) {
    && (forall i: uint32 :: i < Published(tx) ==> Encode(i, tx.log[i]) in net || i in rx.arrived)
    && (forall i <- rx.arrived :: i < Published(tx) && Accepted(rx, i))
  }

  /** The frames keep moving: none is lost, and none is left behind in the buffer. */
  ghost predicate Flowing(s: State) {
    && s.rx.rcv.size > 0 && !s.rx.rcv.closed && !s.tx.pc.Failed?
    && NothingLost(s.tx, s.net, s.rx)
    && (s.rx.rcv.phase.Idle? ==> s.rx.rcv.next !in s.rx.rcv.buf)
  }

  /** So do the acks: the last one has arrived or is in flight, and no wakeup is lost. */
  ghost predicate LiveInv(s: State) {
    && Flowing(s)
    && (s.tx.acked == s.rx.last || s.rx.last in s.acks)
    && (s.tx.pc.Waiting? && Fits(s.tx) ==> s.tx.token)
  }

  lemma TxKeepsLive(s: State, e: TxEvent)
    requires Inv(s) && LiveInv(s) && Enabled(s, Tx(e)) && Faultless(s, Tx(e))
    ensures LiveInv(Apply(s, Tx(e)))
  {
    TxGrows(s.tx, e);
    if e.Number? { assert Published(TxApply(s.tx, e)) == Published(s.tx); }
  }

  lemma PublishLosesNothing(tx: Sender, net: multiset<bytes>, rx: Reader)
    requires tx.pc.Counted? && SenderInv(tx) && NothingLost(tx, net, rx)
    ensures NothingLost(tx.(pc := Ready), net + multiset{tx.pc.frame}, rx)
  {
    var net' := net + multiset{tx.pc.frame};
    forall i: uint32 | i < |tx.log| ensures Encode(i, tx.log[i]) in net' || i in rx.arrived {
      if i < Published(tx) { assert Encode(i, tx.log[i]) in net || i in rx.arrived; }
    }
  }

  lemma PublishKeepsLive(s: State)
    requires Inv(s) && LiveInv(s) && Enabled(s, Publish)
    ensures LiveInv(Apply(s, Publish))
  {
    PublishLosesNothing(s.tx, s.net, s.rx);
  }

  lemma RxKeepsLive(s: State, e: RxEvent)
    requires Inv(s) && LiveInv(s) && Enabled(s, Rx(e)) && Faultless(s, Rx(e))
    ensures LiveInv(Apply(s, Rx(e)))
  {
    hide SenderInv, CreditInv, NetInv, OutputInv, TallyInv;
    var t := Apply(s, Rx(e));
    forall i <- t.rx.arrived ensures Accepted(t.rx, i) { assert Accepted(s.rx, i); }
  }

  /** An orderly frame is never refused: it is accepted, or was before. */
  lemma OrderlyIsAccepted(s: State, f: bytes)
    requires Inv(s) && LiveInv(s) && Enabled(s, Arrive(f)) && Orderly(s.rx, f)
    ensures var d := Decode(f);
            && d.Decoded? && d.number < Published(s.tx) && f == Encode(d.number, s.tx.log[d.number])
            && R.Judge(s.rx.rcv.buf, s.rx.rcv.next, s.rx.rcv.size, d.number) != R.Full
            && Accepted(Offered(s.rx, d), d.number)
  {
    assert Genuine(s.tx.log, Published(s.tx), f);
    var d := Decode(f);
    DecodeExact(f, d.number, d.payload);
    assert !Accepted(s.rx, s.rx.popped);
    assert s.rx.popped !in s.rx.arrived;
  }

  lemma RoomIsAccepted(s: State, f: bytes)
    requires Inv(s) && Enabled(s, Arrive(f)) && !Refused(s.rx, f)
    ensures var d := Decode(f);
            && d.Decoded? && d.number < Published(s.tx) && f == Encode(d.number, s.tx.log[d.number])
            && Accepted(Offered(s.rx, d), d.number)
  {
    assert Genuine(s.tx.log, Published(s.tx), f);
    var d := Decode(f);
    DecodeExact(f, d.number, d.payload);
  }

  lemma ArrivalIsAccepted(s: State, f: bytes)
    requires Inv(s) && LiveInv(s) && Enabled(s, Arrive(f)) && Faultless(s, Arrive(f))
    ensures var d := Decode(f);
            && d.Decoded? && d.number < Published(s.tx) && f == Encode(d.number, s.tx.log[d.number])
            && Accepted(Offered(s.rx, d), d.number)
  {
    if Orderly(s.rx, f) { OrderlyIsAccepted(s, f); } else { RoomIsAccepted(s, f); }
  }

  lemma ArriveKeepsLive(s: State, f: bytes)
    requires Inv(s) && LiveInv(s) && Enabled(s, Arrive(f)) && Faultless(s, Arrive(f))
    ensures LiveInv(Apply(s, Arrive(f)))
  {
    ArrivalIsAccepted(s, f);
    AcceptedKeepsLive(s, f);
  }

  lemma AcceptedKeepsLive(s: State, f: bytes)
    requires Inv(s) && LiveInv(s) && Enabled(s, Arrive(f))
    requires var d := Decode(f);
             && d.Decoded? && d.number < Published(s.tx) && f == Encode(d.number, s.tx.log[d.number])
             && Accepted(Offered(s.rx, d), d.number)
    ensures LiveInv(Apply(s, Arrive(f)))
  {
    var t := Apply(s, Arrive(f));
    forall i: uint32 | i < Published(t.tx) ensures Encode(i, t.tx.log[i]) in t.net || i in t.rx.arrived {
      DecodeEncode(i, s.tx.log[i]);
      assert Encode(i, s.tx.log[i]) in s.net || i in s.rx.arrived;
    }
    forall i <- t.rx.arrived ensures Accepted(t.rx, i) && i < Published(t.tx) {
      if i in s.rx.arrived { assert Accepted(s.rx, i); }
    }
  }

  lemma SameFramesLost(tx: Sender, rx: Reader, tx': Sender, rx': Reader, net: multiset<bytes>)
    requires NothingLost(tx, net, rx) && tx'.log == tx.log && Published(tx') == Published(tx)
    requires rx'.arrived == rx.arrived && rx'.popped == rx.popped && rx'.rcv.buf == rx.rcv.buf
    ensures NothingLost(tx', net, rx')
  {
    hide Encode;
  }

  lemma AckArriveKeepsLive(s: State, a: uint64)
    requires Inv(s) && LiveInv(s) && Enabled(s, AckArrive(a))
    ensures LiveInv(Apply(s, AckArrive(a)))
  {
    hide SenderInv, CreditInv, NetInv, ReaderInv, NothingLost;
    AckChain(s);
    AckKeepsSender(s.tx, a);
    SameFramesLost(s.tx, s.rx, Acked(s.tx, a), s.rx, s.net);
  }

  lemma ConsumeKeepsLive(s: State)
    requires Inv(s) && LiveInv(s) && Enabled(s, Consume)
    ensures LiveInv(Apply(s, Consume))
  {
    hide SenderInv, CreditInv, NetInv, ReaderInv, NothingLost, AckDue, TotalWith;
    SentBound(s.tx);
    ConsumeKeepsReader(s.tx.log, Published(s.tx), s.rx);
    SameFramesLost(s.tx, s.rx, s.tx, Consumed(s.rx), s.net);
  }

  lemma StepKeepsLive(s: State, step: Step)
    requires Inv(s) && LiveInv(s) && Enabled(s, step) && Faultless(s, step)
    ensures LiveInv(Apply(s, step))
  {
    match step
    case Tx(e) => TxKeepsLive(s, e);
    case Publish => PublishKeepsLive(s);
    case Rx(e) => RxKeepsLive(s, e);
    case Arrive(f) => ArriveKeepsLive(s, f);
    case Duplicate(f) =>
    case AckDuplicate(a) =>
    case AckArrive(a) => AckArriveKeepsLive(s, a);
    case Consume => ConsumeKeepsLive(s);
  }

  lemma {:induction false} FaultlessRunKeeps(s: State, steps: seq<Step>, t: State)
    requires Inv(s) && LiveInv(s) && FaultlessRun(s, steps, t) && |t.tx.log| < TWO_32
    ensures Inv(t) && LiveInv(t)
    decreases |steps|
  {
    if steps != [] {
      FaultlessIsRun(s, steps, t);
      RunGrows(Apply(s, steps[0]), steps[1..], t);
      StepKeepsInv(s, steps[0]);
      StepKeepsLive(s, steps[0]);
      FaultlessRunKeeps(Apply(s, steps[0]), steps[1..], t);
    }
  }

  lemma {:induction false} FaultlessIsRun(s: State, steps: seq<Step>, t: State)
    requires FaultlessRun(s, steps, t)
    ensures Run(s, steps, t)
    decreases |steps|
  {
    if steps != [] { FaultlessIsRun(Apply(s, steps[0]), steps[1..], t); }
  }

  ghost predicate FaultlesslyReachable(size: nat, s: State) {
    |s.tx.log| < TWO_32 && exists steps :: FaultlessRun(Initial(size), steps, s)
  }

  lemma FaultlesslyReachableInv(size: nat, s: State)
    requires size > 0 && FaultlesslyReachable(size, s)
    ensures Inv(s) && LiveInv(s)
  {
    InitialInv(size);
    var steps :| FaultlessRun(Initial(size), steps, s);
    FaultlessRunKeeps(Initial(size), steps, s);
  }

  // ---- no deadlock ----

  /** Nothing in flight, nothing buffered, everything consumed. */
  predicate Quiet(s: State) {
    s.net == multiset{} && s.acks == multiset{} && s.rx.rcv.phase.Idle? && s.rx.rcv.ch == []
  }

  lemma QuietMeansDelivered(s: State)
    requires Inv(s) && Flowing(s) && Quiet(s) && (s.tx.pc.Ready? || s.tx.pc.Waiting?)
    ensures s.rx.taken == s.tx.log && s.rx.rcv.buf == map[]
    ensures s.rx.total == s.tx.sent
  {
    var rx := s.rx;
    assert rx.popped !in rx.arrived;
    assert rx.taken + rx.rcv.ch == rx.taken == s.tx.log;
    SentBound(s.tx);
  }

  lemma QuietFits(s: State, n: nat)
    requires Inv(s) && LiveInv(s) && Quiet(s) && (s.tx.pc.Ready? || s.tx.pc.Waiting?) && n <= MAX_PAYLOAD
    ensures s.tx.sent - s.tx.acked < MAX_PAYLOAD
    ensures Credit.Admits(s.tx.sent, s.tx.acked, WINDOW, n)
    ensures Fits(s.tx)
  {
    hide Acks.CountAll, NetInv, BufferInv, OutputInv, NothingLost, Flatten;
    QuietMeansDelivered(s);
  }

  /** When all is quiet, less than one payload is unacknowledged, so any chunk fits the window. */
  lemma NoDeadlock(size: nat, s: State, n: nat)
    requires size > 0 && FaultlesslyReachable(size, s) && Quiet(s) && (s.tx.pc.Ready? || s.tx.pc.Waiting?)
    requires n <= 65536
    ensures s.tx.sent - s.tx.acked < 65536
    ensures Credit.Admits(s.tx.sent, s.tx.acked, 262144, n)
    ensures s.tx.pc.Waiting? ==> s.tx.token
  {
    FaultlesslyReachableInv(size, s);
    QuietFits(s, n);
  }

  /** All written, all delivered, all quiet. */
  predicate Complete(s: State) {
    Quiet(s) && s.tx.pc.Ready? && s.tx.rest == []
  }

  /** If a frame arrives, it does so in an orderly way. */
  ghost predicate InOrder(s: State, step: Step) {
    step.Arrive? ==> Orderly(s.rx, step.frame)
  }

  /** Steps of the program and of the network that are not new input and not duplication. */
  predicate Internal(step: Step) {
    !(step.Tx? && step.tx.BeginWrite?) && !step.Duplicate? && !step.AckDuplicate?
  }

  lemma GenuineIsEncoding(log: seq<bytes>, published: nat, net: multiset<bytes>) returns (i: uint32)
    requires NetInv(log, published, net) && net != multiset{}
    ensures i < published && Encode(i, log[i]) in net
  {
    var f :| f in net;
    assert Genuine(log, published, f);
    i := Decode(f).number;
    DecodeExact(f, i, log[i]);
  }

  /** A frame still in flight before which everything has arrived. */
  lemma {:induction false} LowestInFlight(tx: Sender, net: multiset<bytes>, rx: Reader, from: nat) returns (i: uint32)
    requires NetInv(tx.log, Published(tx), net) && NothingLost(tx, net, rx) && net != multiset{}
    requires |tx.log| < TWO_32 && from <= Published(tx)
    requires forall j: nat :: j < from ==> j in rx.arrived
    ensures i < Published(tx) && Encode(i, tx.log[i]) in net
    ensures forall j: nat :: j < i ==> j in rx.arrived
    decreases Published(tx) - from
  {
    hide Encode;
    if from == Published(tx) {
      i := GenuineIsEncoding(tx.log, Published(tx), net);
    } else if Encode(from, tx.log[from]) in net {
      i := from;
    } else {
      i := LowestInFlight(tx, net, rx, from + 1);
    }
  }

  lemma LowestIsOrderly(rx: Reader, i: uint32, payload: bytes)
    requires rx.rcv.size > 0 && forall j: nat :: j < i ==> j in rx.arrived
    ensures Orderly(rx, Encode(i, payload))
  {
    DecodeEncode(i, payload);
  }

  lemma FrameCanArrive(s: State) returns (step: Step)
    requires Inv(s) && Flowing(s) && s.rx.rcv.phase.Idle? && s.net != multiset{}
    ensures Enabled(s, step) && Faultless(s, step) && Internal(step) && InOrder(s, step)
  {
    var i := LowestInFlight(s.tx, s.net, s.rx, 0);
    LowestIsOrderly(s.rx, i, s.tx.log[i]);
    hide Encode, Orderly, Refused, Inv, Flowing;
    step := Arrive(Encode(i, s.tx.log[i]));
  }

  lemma WriterCanGoOn(s: State) returns (step: Step)
    requires Inv(s) && LiveInv(s) && !Complete(s) && Quiet(s)
    ensures Enabled(s, step) && Faultless(s, step) && Internal(step) && InOrder(s, step)
  {
    match s.tx.pc
    case Ready => step := Tx(Check);
    case Waiting =>
      QuietFits(s, 0);
      step := Tx(Wake);
    case Admitted => step := Tx(Number);
    case Numbered(_, _) => step := Tx(Count);
    case Counted(_) => step := Publish;
  }

  /** When the receiver is idle, something is in flight or the writer can go on. */
  lemma IdleProgress(s: State) returns (step: Step)
    requires Inv(s) && LiveInv(s) && !Complete(s) && s.rx.rcv.phase.Idle? && s.rx.rcv.ch == []
    ensures Enabled(s, step) && Faultless(s, step) && Internal(step) && InOrder(s, step)
  {
    assert Flowing(s);
    hide Inv, LiveInv, Flowing, Complete;
    if s.acks != multiset{} {
      var a :| a in s.acks;
      step := AckArrive(a);
    } else if s.net != multiset{} {
      step := FrameCanArrive(s);
    } else {
      step := WriterCanGoOn(s);
    }
  }

  /** A busy receiver can go on, whatever the rest does. */
  lemma ReceiverCanGoOn(s: State) returns (step: Step)
    requires s.rx.rcv.size > 0 && !(s.rx.rcv.phase.Idle? && s.rx.rcv.ch == [])
    ensures Enabled(s, step) && Faultless(s, step) && Internal(step) && !step.Arrive? && !step.AckArrive?
  {
    var rcv := s.rx.rcv;
    match rcv.phase
    case Draining => step := if rcv.next in rcv.buf then Rx(Pop) else Rx(Done);
    case Sending(_) => step := if |rcv.ch| < rcv.size then Rx(Push) else Consume;
    case Idle => step := Consume;
  }

  /** In every state that is not complete, some faultless step can be taken. */
  lemma Progress(s: State) returns (step: Step)
    requires Inv(s) && LiveInv(s) && !Complete(s)
    ensures Enabled(s, step) && Faultless(s, step) && Internal(step) && InOrder(s, step)
  {
    if s.rx.rcv.phase.Idle? && s.rx.rcv.ch == [] {
      step := IdleProgress(s);
    } else {
      step := ReceiverCanGoOn(s);
    }
  }

  // ---- termination ----

  function PcWork(pc: Pc): nat {
    match pc
    case Ready => 4
    case Waiting => 3
    case Admitted => 3
    case Numbered(_, _) => 14
    case Counted(_) => 13
    case Failed => 0
  }

  function PhaseWork(p: R.Phase): nat {
    match p
    case Idle => 0
    case Draining => 1
    case Sending(_) => 6
  }

  function BufferWork(rcv: R.Receiver): nat {
    6 * |rcv.buf| + PhaseWork(rcv.phase) + 4 * |rcv.ch|
  }

  /** Work left: unsent bytes, frames and acks in flight, and what the receiver still holds. */
  function Work(s: State): nat {
    20 * |s.tx.rest| + PcWork(s.tx.pc) + (if s.tx.token then 2 else 0)
    + 8 * |s.net| + 3 * |s.acks| + BufferWork(s.rx.rcv)
  }

  lemma TxWorkFalls(s: State, e: TxEvent)
    requires SenderInv(s.tx) && TxEnabled(s.tx, e) && !e.BeginWrite? && !e.Cancel? && !e.PublishFail?
    ensures Work(Apply(s, Tx(e))) < Work(s)
  {
  }

  lemma RxWorkFalls(s: State, e: RxEvent)
    requires R.Enabled(s.rx.rcv, RxStep(e)) && !e.Abort? && !e.Close?
    ensures Work(Apply(s, Rx(e))) < Work(s)
  {
    var rcv := s.rx.rcv;
    if e.Pop? {
      R.ShrinkByOne(rcv.buf, rcv.next);
      assert RxApply(s.rx, Pop).rcv == R.Pop(rcv);
    }
  }

  lemma OfferedWork(rx: Reader, d: DecodeResult)
    requires rx.rcv.phase.Idle?
    ensures BufferWork(Offered(rx, d).rcv) < BufferWork(rx.rcv) + 8
  {
    if d.Decoded? {
      assert rx.rcv.buf[d.number := d.payload].Keys == rx.rcv.buf.Keys + {d.number};
    }
  }

  lemma ArriveWorkFalls(s: State, f: bytes)
    requires Enabled(s, Arrive(f))
    ensures Work(Apply(s, Arrive(f))) < Work(s)
  {
    OfferedWork(s.rx, Decode(f));
    hide Offered, BufferWork, Decode;
    assert |s.net - multiset{f}| == |s.net| - 1;
  }

  lemma WorkFalls(s: State, step: Step)
    requires Inv(s) && Enabled(s, step) && Faultless(s, step) && Internal(step)
    ensures Work(Apply(s, step)) < Work(s)
  {
    match step
    case Tx(e) => TxWorkFalls(s, e);
    case Rx(e) => RxWorkFalls(s, e);
    case Arrive(f) => ArriveWorkFalls(s, f);
    case AckArrive(a) => assert |s.acks - multiset{a}| == |s.acks| - 1;
    case Consume => assert |s.acks + NewAcks(s.rx)| <= |s.acks| + 1;
    case Publish =>
  }

  ghost predicate InternalRun(s: State, steps: seq<Step>, t: State) {
    FaultlessRun(s, steps, t) && forall step <- steps :: Internal(step)
  }

  /** Room for every frame the pending data still needs. */
  predicate FramesFit(tx: Sender) {
    |tx.log| + (|tx.rest| + MAX_PAYLOAD - 1) / MAX_PAYLOAD < TWO_32
  }

  lemma TxKeepsFramesFit(tx: Sender, e: TxEvent)
    requires FramesFit(tx) && TxEnabled(tx, e) && !e.BeginWrite?
    requires tx.pc.Admitted? ==> tx.rest != []
    ensures FramesFit(TxApply(tx, e)) && TxApply(tx, e).given == tx.given
  {
  }

  lemma StepKeepsFramesFit(s: State, step: Step)
    requires FramesFit(s.tx) && Inv(s) && Enabled(s, step) && Internal(step)
    ensures FramesFit(Apply(s, step).tx) && Apply(s, step).tx.given == s.tx.given
    ensures |Apply(s, step).tx.log| < TWO_32
  {
    if step.Tx? { TxKeepsFramesFit(s.tx, step.tx); }
  }

  lemma InternalStep(s: State, step: Step)
    requires Inv(s) && LiveInv(s) && FramesFit(s.tx)
    requires Enabled(s, step) && Faultless(s, step) && Internal(step)
    ensures var t := Apply(s, step);
            Inv(t) && LiveInv(t) && FramesFit(t.tx) && t.tx.given == s.tx.given && Work(t) < Work(s)
  {
    hide *;
    StepKeepsFramesFit(s, step);
    StepKeepsInv(s, step);
    StepKeepsLive(s, step);
    WorkFalls(s, step);
  }

  /** No step of the program or of a faultless, orderly network is left, short of new input or
      duplication. */
  ghost predicate Stuck(s: State) {
    forall step :: Enabled(s, step) && Faultless(s, step) && InOrder(s, step) ==> !Internal(step)
  }

  lemma CompleteMeansDelivered(s: State)
    requires Inv(s) && LiveInv(s) && Complete(s)
    ensures Flatten(s.rx.taken) == s.tx.given
    ensures InternalRun(s, [], s)
  {
    QuietMeansDelivered(s);
  }

  /** However the goroutines and the network are scheduled, a run without new input or duplication
      has at most `Work(s)` steps, and where it cannot go on everything written has been delivered. */
  lemma {:induction false} EveryRunDelivers(s: State, steps: seq<Step>, t: State)
    requires Inv(s) && LiveInv(s) && FramesFit(s.tx) && InternalRun(s, steps, t)
    ensures |steps| + Work(t) <= Work(s)
    ensures Stuck(t) ==> Complete(t) && Flatten(t.rx.taken) == s.tx.given
    decreases |steps|
  {
    hide Inv, LiveInv, FramesFit, Work, Enabled, Apply, Faultless, Internal, Complete;
    if steps == [] {
      if Complete(s) {
        CompleteMeansDelivered(s);
      } else {
        var step := Progress(s);
      }
    } else {
      assert steps[0] in steps;
      assert forall step <- steps[1..] :: step in steps;
      InternalStep(s, steps[0]);
      EveryRunDelivers(Apply(s, steps[0]), steps[1..], t);
    }
  }

  lemma StepThenRun(s: State, step: Step, steps: seq<Step>, t: State)
    requires Enabled(s, step) && Faultless(s, step) && Internal(step) && InternalRun(Apply(s, step), steps, t)
    ensures InternalRun(s, [step] + steps, t)
  {
    assert ([step] + steps)[1..] == steps;
  }

  /** From every faultlessly reachable state all that was written can still be delivered. */
  lemma {:induction false} DeliveryPossible(s: State)
    requires Inv(s) && LiveInv(s) && FramesFit(s.tx)
    ensures exists steps, t :: InternalRun(s, steps, t) && Complete(t) && Flatten(t.rx.taken) == s.tx.given
    decreases Work(s)
  {
    hide *;
    if Complete(s) {
      CompleteMeansDelivered(s);
    } else {
      var step := Progress(s);
      InternalStep(s, step);
      DeliveryPossible(Apply(s, step));
      var steps, t :| InternalRun(Apply(s, step), steps, t) && Complete(t) && Flatten(t.rx.taken) == s.tx.given;
      StepThenRun(s, step, steps, t);
    }
  }

  /** The theorem from the start of the session: for TCP and shell sessions on such a network. */
  lemma SessionDelivers(size: nat, s: State)
    requires size > 0 && FaultlesslyReachable(size, s) && FramesFit(s.tx)
    ensures exists steps, t :: InternalRun(s, steps, t) && Complete(t) && Flatten(t.rx.taken) == s.tx.given
    ensures forall steps, t :: InternalRun(s, steps, t) ==> |steps| <= Work(s)
    ensures forall steps, t :: InternalRun(s, steps, t) && Stuck(t) ==> Flatten(t.rx.taken) == s.tx.given
  {
    FaultlesslyReachableInv(size, s);
    DeliveryPossible(s);
    forall steps, t | InternalRun(s, steps, t)
      ensures |steps| <= Work(s)
      ensures Stuck(t) ==> Flatten(t.rx.taken) == s.tx.given
    {
      EveryRunDelivers(s, steps, t);
    }
  }
}
