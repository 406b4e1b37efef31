/** One direction of a session as a whole: the writer under its credit window, a network that may
    duplicate, reorder and lose, the reorder buffer, the consumer and its acks.
    Every atomic action of a goroutine, and every action of the network, is one step. */
module Stream {
  import opened Bytes
  import opened Frames
  import Credit
  import Acks
  import opened Writer
  import R = Reorder

  /** Where the one writer is inside `SequenceWriter.Write`. */
  datatype Pc =
    | Ready
    | Waiting
    | Admitted
    | Numbered(frame: bytes, size: uint64)
    | Counted(frame: bytes)
    | Failed

  /** The writer and its window. History: `given` is all bytes handed to `Write`, `log` the payload
      of every frame numbered so far. */
  datatype Sender = Sender(
    rest: bytes, pc: Pc, seqNo: uint32, sent: uint64, acked: uint64, token: bool,
    given: bytes, log: seq<bytes>)

  /** The reorder buffer and its consumer. History: frames out of the buffer, indices put into the
      channel, payloads taken out of it, and indices that have arrived. */
  datatype Reader = Reader(
    rcv: R.Receiver, total: uint64, last: uint64,
    popped: nat, pushed: seq<nat>, taken: seq<bytes>, arrived: set<nat>)

  datatype State = State(tx: Sender, net: multiset<bytes>, acks: multiset<uint64>, rx: Reader)

  datatype TxEvent = BeginWrite(data: bytes) | Check | Wake | Cancel | Number | Count | PublishFail

  datatype RxEvent = Pop | Done | Push | Abort | Close

  datatype Step =
    | Tx(tx: TxEvent) | Publish
    | Rx(rx: RxEvent) | Consume
    | Arrive(frame: bytes) | AckArrive(ack: uint64)
    | Duplicate(frame: bytes) | Drop(frame: bytes) | AckDuplicate(ack: uint64) | AckDrop(ack: uint64)

  function Initial(size: nat): State {
    State(Sender([], Ready, 0, 0, 0, false, [], []), multiset{}, multiset{},
          Reader(R.Initial(size), 0, 0, 0, [], [], {}))
  }

  predicate Fits(tx: Sender) {
    Credit.Admits(tx.sent, tx.acked, WINDOW, |Chunk(tx.rest)|)
  }

  predicate TxEnabled(tx: Sender, e: TxEvent) {
    match e
    case BeginWrite(_) => tx.pc.Ready? && tx.rest == []
    case Check => tx.pc.Ready? && tx.rest != []
    case Wake => tx.pc.Waiting? && tx.token
    case Cancel => tx.pc.Waiting?
    case Number => tx.pc.Admitted?
    case Count => tx.pc.Numbered?
    case PublishFail => tx.pc.Counted?
  }

  function TxApply(tx: Sender, e: TxEvent): Sender
    requires TxEnabled(tx, e)
  {
    match e
    case BeginWrite(data) => tx.(rest := data, given := tx.given + data)
    case Check => tx.(pc := if Fits(tx) then Admitted else Waiting)
    case Wake => tx.(pc := Ready, token := false)
    case Cancel => tx.(pc := Failed)
    case Number =>
      var chunk := Chunk(tx.rest);
      tx.(pc := Numbered(Encode(tx.seqNo, chunk), |chunk|), seqNo := R.Successor(tx.seqNo),
          rest := tx.rest[|chunk|..], log := tx.log + [chunk])
    case Count => tx.(pc := Counted(tx.pc.frame), sent := (tx.sent + tx.pc.size) % TWO_64)
    case PublishFail => tx.(pc := Failed)
  }

  function RxStep(e: RxEvent): R.Step {
    match e
    case Pop => R.PopStep
    case Done => R.DoneStep
    case Push => R.PushStep
    case Abort => R.AbortStep
    case Close => R.CloseStep
  }

  function RxApply(rx: Reader, e: RxEvent): Reader
    requires R.Enabled(rx.rcv, RxStep(e))
  {
    var rx' := rx.(rcv := R.Apply(rx.rcv, RxStep(e)));
    match e
    case Pop => rx'.(popped := rx.popped + 1)
    case Push => rx'.(pushed := rx.pushed + [Settled(rx)])
    case _ => rx'
  }

  /** Frames that have left the buffer and are settled: in the channel, consumed, or dropped. */
  function Settled(rx: Reader): nat {
    if rx.rcv.phase.Sending? && rx.popped > 0 then rx.popped - 1 else rx.popped
  }

  predicate Enabled(s: State, step: Step) {
    match step
    case Tx(e) => TxEnabled(s.tx, e)
    case Publish => s.tx.pc.Counted?
    case Rx(e) => R.Enabled(s.rx.rcv, RxStep(e))
    case Consume => s.rx.rcv.ch != []
    case Arrive(f) => f in s.net && s.rx.rcv.phase.Idle?
    case AckArrive(a) => a in s.acks
    case Duplicate(f) => f in s.net
    case Drop(f) => f in s.net
    case AckDuplicate(a) => a in s.acks
    case AckDrop(a) => a in s.acks
  }

  function Apply(s: State, step: Step): State
    requires Enabled(s, step)
  {
    match step
    case Tx(e) => s.(tx := TxApply(s.tx, e))
    case Publish => s.(tx := s.tx.(pc := Ready), net := s.net + multiset{s.tx.pc.frame})
    case Rx(e) => s.(rx := RxApply(s.rx, e))
    case Consume => s.(rx := Consumed(s.rx), acks := s.acks + NewAcks(s.rx))
    case Arrive(f) => s.(net := s.net - multiset{f}, rx := Offered(s.rx, Decode(f)))
    case AckArrive(a) => s.(acks := s.acks - multiset{a}, tx := Acked(s.tx, a))
    case Duplicate(f) => s.(net := s.net + multiset{f})
    case Drop(f) => s.(net := s.net - multiset{f})
    case AckDuplicate(a) => s.(acks := s.acks + multiset{a})
    case AckDrop(a) => s.(acks := s.acks - multiset{a})
  }

  function Acked(tx: Sender, a: uint64): Sender {
    tx.(acked := Credit.AfterAck(tx.sent, tx.acked, a), token := true)
  }

  function Offered(rx: Reader, d: DecodeResult): Reader {
    match d
    case TooShort => rx
    case Decoded(n, payload) => rx.(rcv := R.Arrive(rx.rcv, n, payload), arrived := rx.arrived + {n})
  }

  function TotalWith(rx: Reader, n: nat): uint64 {
    (rx.total + n) % TWO_64
  }

  predicate AckDue(rx: Reader, n: nat) {
    (TotalWith(rx, n) - rx.last) % TWO_64 >= Acks.INTERVAL
  }

  function Consumed(rx: Reader): Reader
    requires rx.rcv.ch != []
  {
    var p := rx.rcv.ch[0];
    rx.(rcv := R.Apply(rx.rcv, R.ReceiveStep), taken := rx.taken + [p], total := TotalWith(rx, |p|),
        last := if AckDue(rx, |p|) then TotalWith(rx, |p|) else rx.last)
  }

  function NewAcks(rx: Reader): multiset<uint64>
    requires rx.rcv.ch != []
  {
    if AckDue(rx, |rx.rcv.ch[0]|) then multiset{TotalWith(rx, |rx.rcv.ch[0]|)} else multiset{}
  }

  predicate Run(s: State, steps: seq<Step>, t: State)
    decreases |steps|
  {
    if steps == [] then s == t
    else Enabled(s, steps[0]) && Run(Apply(s, steps[0]), steps[1..], t)
  }

  // ---- the sender ----

  /** Frames that may have been handed to the broker, and frames counted by `AddSent`. */
  function Published(tx: Sender): nat {
    if (tx.pc.Numbered? || tx.pc.Counted?) && tx.log != [] then |tx.log| - 1 else |tx.log|
  }

  function CountedFrames(tx: Sender): nat {
    if tx.pc.Numbered? && tx.log != [] then |tx.log| - 1 else |tx.log|
  }

  ghost predicate SenderInv(tx: Sender) {
    && |tx.log| < TWO_32 && tx.seqNo == |tx.log|
    && (forall i :: 0 <= i < |tx.log| ==> 0 < |tx.log[i]| <= MAX_PAYLOAD)
    && tx.given == Flatten(tx.log) + tx.rest
    && (tx.pc.Admitted? || tx.pc.Waiting? ==> tx.rest != [])
    && (tx.pc.Numbered? ==> tx.log != [] && tx.pc.size == |tx.log[|tx.log| - 1]|)
    && (tx.pc.Numbered? || tx.pc.Counted? ==>
          tx.log != [] && tx.pc.frame == Encode(|tx.log| - 1, tx.log[|tx.log| - 1]))
    && tx.sent == |Flatten(tx.log[..CountedFrames(tx)])|
  }

  /** Bytes that passed the window test and are not yet counted. */
  function Reserved(tx: Sender): nat {
    match tx.pc
    case Admitted => |Chunk(tx.rest)|
    case Numbered(_, size) => size
    case _ => 0
  }

  ghost predicate CreditInv(tx: Sender) {
    tx.acked <= tx.sent && tx.sent - tx.acked + Reserved(tx) <= WINDOW
  }

  lemma {:induction false} SizeBound(parts: seq<bytes>)
    requires forall i :: 0 <= i < |parts| ==> |parts[i]| <= MAX_PAYLOAD
    ensures |Flatten(parts)| <= |parts| * MAX_PAYLOAD
  {
    if parts != [] { SizeBound(parts[1..]); }
  }

  lemma FlattenMonotone(parts: seq<bytes>, m: nat, n: nat)
    requires m <= n <= |parts|
    ensures |Flatten(parts[..m])| <= |Flatten(parts[..n])|
  {
    assert parts[..n][..m] == parts[..m];
    FlattenTake(parts[..n], m);
  }

  lemma SentBound(tx: Sender)
    requires SenderInv(tx)
    ensures |Flatten(tx.log)| < Acks.MAX_SLICE
    ensures tx.pc.Numbered? ==> tx.sent + tx.pc.size == |Flatten(tx.log)|
    ensures !tx.pc.Numbered? ==> tx.sent == |Flatten(tx.log)|
    ensures tx.sent <= |Flatten(tx.log)|
  {
    SizeBound(tx.log);
    assert tx.log[..|tx.log|] == tx.log;
    if tx.pc.Numbered? { FlattenTake(tx.log, |tx.log| - 1); }
  }

  lemma NumberKeepsSender(tx: Sender)
    requires SenderInv(tx) && TxEnabled(tx, Number) && |tx.log| + 1 < TWO_32
    ensures SenderInv(TxApply(tx, Number))
  {
    var t := TxApply(tx, Number);
    var chunk := Chunk(tx.rest);
    FlattenSnoc(tx.log, chunk);
    assert tx.rest == chunk + t.rest;
    assert t.log[..|tx.log|] == tx.log && tx.log[..|tx.log|] == tx.log;
  }

  lemma CountKeepsSender(tx: Sender)
    requires SenderInv(tx) && TxEnabled(tx, Count)
    ensures SenderInv(TxApply(tx, Count))
  {
    SentBound(tx);
    assert tx.log[..|tx.log|] == tx.log;
  }

  lemma TxKeepsSender(tx: Sender, e: TxEvent)
    requires SenderInv(tx) && TxEnabled(tx, e) && |TxApply(tx, e).log| < TWO_32
    ensures SenderInv(TxApply(tx, e))
  {
    match e
    case Number => NumberKeepsSender(tx);
    case Count => CountKeepsSender(tx);
    case BeginWrite(data) => assert tx.given == Flatten(tx.log);
    case _ =>
  }

  lemma TxGrows(tx: Sender, e: TxEvent)
    requires TxEnabled(tx, e)
    ensures tx.log <= TxApply(tx, e).log && TxApply(tx, e).acked == tx.acked
    ensures Published(tx) <= Published(TxApply(tx, e))
  {
  }

  lemma TxKeepsCredit(tx: Sender, e: TxEvent)
    requires SenderInv(tx) && CreditInv(tx) && TxEnabled(tx, e)
    ensures CreditInv(TxApply(tx, e))
  {
    SentBound(tx);
  }

  // ---- the network ----

  /** The frame decodes to a payload that was published under that number. */
  ghost predicate Genuine(log: seq<bytes>, published: nat, f: bytes)
    requires published <= |log|
  {
    var d := Decode(f);
    d.Decoded? && d.number < published && d.payload == log[d.number]
  }

  ghost predicate NetInv(log: seq<bytes>, published: nat, net: multiset<bytes>) {
    published <= |log| && forall f <- net :: Genuine(log, published, f)
  }

  lemma NetKeeps(log: seq<bytes>, published: nat, net: multiset<bytes>,
                 log': seq<bytes>, published': nat, net': multiset<bytes>)
    requires NetInv(log, published, net) && log <= log' && published <= published' <= |log'|
    requires forall f <- net' :: f in net || Genuine(log', published', f)
    ensures NetInv(log', published', net')
  {
    forall f <- net' ensures Genuine(log', published', f) {
      if f in net { assert Genuine(log, published, f); }
    }
  }

  // ---- the receiver ----

  ghost predicate BufferInv(log: seq<bytes>, published: nat, rx: Reader) {
    && rx.popped <= published <= |log| && published < TWO_32 && rx.rcv.next == rx.popped
    && R.InWindow(rx.rcv.buf, rx.rcv.next, rx.rcv.size)
    && (forall k <- rx.rcv.buf :: k < published && rx.rcv.buf[k] == log[k])
    && (rx.rcv.phase.Sending? ==> rx.popped > 0 && rx.rcv.phase.payload == log[rx.popped - 1])
  }

  ghost predicate Increasing(xs: seq<nat>) {
    forall i, j :: 0 <= i < j < |xs| ==> xs[i] < xs[j]
  }

  ghost predicate OutputInv(log: seq<bytes>, rx: Reader) {
    && Settled(rx) <= |log|
    && |rx.taken| + |rx.rcv.ch| == |rx.pushed|
    && Increasing(rx.pushed)
    && (forall i :: 0 <= i < |rx.pushed| ==>
          rx.pushed[i] < Settled(rx) && (rx.taken + rx.rcv.ch)[i] == log[rx.pushed[i]])
    && (!rx.rcv.closed ==> |rx.pushed| == Settled(rx) && forall i :: 0 <= i < |rx.pushed| ==> rx.pushed[i] == i)
    && |Flatten(rx.taken + rx.rcv.ch)| <= |Flatten(log[..Settled(rx)])|
  }

  /** The counters are the tally the consumer loops keep over the payloads taken. */
  ghost predicate TallyInv(rx: Reader) {
    && rx.total == |Flatten(rx.taken)| && rx.last <= rx.total < rx.last + Acks.INTERVAL
    && Acks.CountAll(Acks.FRESH, Acks.Sizes(rx.taken)) == Acks.Tally(rx.total, rx.last)
  }

  ghost predicate ReaderInv(log: seq<bytes>, published: nat, rx: Reader) {
    BufferInv(log, published, rx) && OutputInv(log, rx) && TallyInv(rx)
  }

  lemma ReaderKeepsAsLogGrows(log: seq<bytes>, published: nat, log': seq<bytes>, published': nat, rx: Reader)
    requires ReaderInv(log, published, rx) && log <= log' && published <= published' <= |log'| && published' < TWO_32
    ensures ReaderInv(log', published', rx)
  {
    assert log'[..Settled(rx)] == log[..Settled(rx)];
  }

  lemma OfferKeepsReader(log: seq<bytes>, published: nat, rx: Reader, f: bytes)
    requires ReaderInv(log, published, rx) && Genuine(log, published, f) && rx.rcv.phase.Idle?
    ensures ReaderInv(log, published, Offered(rx, Decode(f)))
  {
  }

  lemma PopKeepsReader(log: seq<bytes>, published: nat, rx: Reader)
    requires ReaderInv(log, published, rx) && R.Enabled(rx.rcv, R.PopStep)
    ensures ReaderInv(log, published, RxApply(rx, Pop))
  {
    R.PopKeepsWindow(rx.rcv.buf, rx.rcv.next, rx.rcv.size);
  }

  lemma PushKeepsReader(log: seq<bytes>, published: nat, rx: Reader)
    requires ReaderInv(log, published, rx) && R.Enabled(rx.rcv, R.PushStep)
    ensures ReaderInv(log, published, RxApply(rx, Push))
  {
    hide Flatten;
    var t := RxApply(rx, Push);
    var p := rx.rcv.phase.payload;
    assert t.taken + t.rcv.ch == (rx.taken + rx.rcv.ch) + [p];
    FlattenSnoc(rx.taken + rx.rcv.ch, p);
    FlattenTake(log, rx.popped - 1);
  }

  lemma AbortKeepsReader(log: seq<bytes>, published: nat, rx: Reader)
    requires ReaderInv(log, published, rx) && R.Enabled(rx.rcv, R.AbortStep)
    ensures ReaderInv(log, published, RxApply(rx, Abort))
  {
    FlattenMonotone(log, rx.popped - 1, rx.popped);
  }

  lemma RxKeepsReader(log: seq<bytes>, published: nat, rx: Reader, e: RxEvent)
    requires ReaderInv(log, published, rx) && R.Enabled(rx.rcv, RxStep(e))
    ensures ReaderInv(log, published, RxApply(rx, e))
  {
    match e
    case Pop => PopKeepsReader(log, published, rx);
    case Push => PushKeepsReader(log, published, rx);
    case Abort => AbortKeepsReader(log, published, rx);
    case _ =>
  }

  /** What the consumer has taken, and what waits for it, is no more than the whole log. */
  lemma TakenBound(log: seq<bytes>, published: nat, rx: Reader)
    requires ReaderInv(log, published, rx)
    ensures |Flatten(rx.taken)| <= |Flatten(rx.taken + rx.rcv.ch)| <= |Flatten(log[..published])| <= |Flatten(log)|
  {
    FlattenConcat(rx.taken, rx.rcv.ch);
    FlattenMonotone(log, Settled(rx), published);
    FlattenTake(log, published);
  }

  lemma ConsumeKeepsOutput(log: seq<bytes>, rx: Reader)
    requires OutputInv(log, rx) && rx.rcv.ch != []
    ensures OutputInv(log, Consumed(rx))
  {
    assert rx.taken + rx.rcv.ch == Consumed(rx).taken + Consumed(rx).rcv.ch;
  }

  /** The wrapping counters see the true numbers, so the ack is the exact total. */
  lemma ConsumeKeepsTally(rx: Reader)
    requires TallyInv(rx) && rx.rcv.ch != [] && |rx.rcv.ch[0]| < Acks.MAX_SLICE
    requires |Flatten(rx.taken)| + |rx.rcv.ch[0]| < TWO_64
    ensures TallyInv(Consumed(rx)) && rx.last <= Consumed(rx).last
    ensures NewAcks(rx) == if Consumed(rx).last == rx.last then multiset{} else multiset{Consumed(rx).last}
  {
    hide Acks.CountAll, Acks.AckTrace, Flatten;
    var p := rx.rcv.ch[0];
    FlattenSnoc(rx.taken, p);
    var taken := rx.taken + [p];
    assert taken[..|rx.taken|] == rx.taken && taken[..|rx.taken| + 1] == taken;
    Acks.TraceSnoc(taken, |rx.taken|);
    Acks.WrappedTally(Acks.Tally(rx.total, rx.last), |p|, rx.total, rx.last);
  }

  lemma ConsumeKeepsReader(log: seq<bytes>, published: nat, rx: Reader)
    requires ReaderInv(log, published, rx) && rx.rcv.ch != [] && |Flatten(log)| < Acks.MAX_SLICE
    ensures ReaderInv(log, published, Consumed(rx))
    ensures rx.last <= Consumed(rx).last
    ensures NewAcks(rx) == if Consumed(rx).last == rx.last then multiset{} else multiset{Consumed(rx).last}
  {
    TakenBound(log, published, rx);
    FlattenConcat(rx.taken, rx.rcv.ch);
    ConsumeKeepsTally(rx);
    ConsumeKeepsOutput(log, rx);
  }

  // ---- the whole system ----

  ghost predicate AckInv(s: State) {
    s.tx.acked <= s.rx.last && forall a <- s.acks :: a <= s.rx.last
  }

  ghost predicate Inv(s: State) {
    && SenderInv(s.tx) && CreditInv(s.tx)
    && NetInv(s.tx.log, Published(s.tx), s.net)
    && ReaderInv(s.tx.log, Published(s.tx), s.rx)
    && AckInv(s)
  }

  /** The chain that keeps acks honest: acknowledged, last ack, consumed, sent. */
  lemma AckChain(s: State)
    requires Inv(s)
    ensures s.tx.acked <= s.rx.last <= s.rx.total <= s.tx.sent
    ensures forall a <- s.acks :: a <= s.tx.sent
  {
    TakenBound(s.tx.log, Published(s.tx), s.rx);
    FlattenMonotone(s.tx.log, Published(s.tx), CountedFrames(s.tx));
  }

  lemma TxKeepsInv(s: State, e: TxEvent)
    requires Inv(s) && TxEnabled(s.tx, e) && |TxApply(s.tx, e).log| < TWO_32
    ensures Inv(Apply(s, Tx(e)))
  {
    var tx := TxApply(s.tx, e);
    TxKeepsSender(s.tx, e);
    TxKeepsCredit(s.tx, e);
    TxGrows(s.tx, e);
    NetKeeps(s.tx.log, Published(s.tx), s.net, tx.log, Published(tx), s.net);
    ReaderKeepsAsLogGrows(s.tx.log, Published(s.tx), tx.log, Published(tx), s.rx);
  }

  lemma CountedIsGenuine(tx: Sender)
    requires SenderInv(tx) && tx.pc.Counted?
    ensures Genuine(tx.log, |tx.log|, tx.pc.frame)
    ensures SenderInv(tx.(pc := Ready)) && Published(tx) <= Published(tx.(pc := Ready)) == |tx.log|
  {
    DecodeEncode(|tx.log| - 1, tx.log[|tx.log| - 1]);
  }

  lemma PublishKeepsInv(s: State)
    requires Inv(s) && s.tx.pc.Counted?
    ensures Inv(Apply(s, Publish))
  {
    var t := Apply(s, Publish);
    CountedIsGenuine(s.tx);
    hide Genuine, Encode, Decode, BufferInv, OutputInv, TallyInv;
    NetKeeps(s.tx.log, Published(s.tx), s.net, t.tx.log, Published(t.tx), t.net);
    ReaderKeepsAsLogGrows(s.tx.log, Published(s.tx), t.tx.log, Published(t.tx), s.rx);
  }

  lemma ConsumeKeepsInv(s: State)
    requires Inv(s) && s.rx.rcv.ch != []
    ensures Inv(Apply(s, Consume))
  {
    SentBound(s.tx);
    ConsumeKeepsReader(s.tx.log, Published(s.tx), s.rx);
  }

  lemma ArriveKeepsInv(s: State, f: bytes)
    requires Inv(s) && Enabled(s, Arrive(f))
    ensures Inv(Apply(s, Arrive(f)))
  {
    OfferKeepsReader(s.tx.log, Published(s.tx), s.rx, f);
    NetKeeps(s.tx.log, Published(s.tx), s.net, s.tx.log, Published(s.tx), s.net - multiset{f});
  }

  lemma AckKeepsSender(tx: Sender, a: uint64)
    requires SenderInv(tx) && CreditInv(tx) && a <= tx.sent
    ensures SenderInv(Acked(tx, a)) && CreditInv(Acked(tx, a)) && Published(Acked(tx, a)) == Published(tx)
    ensures Acked(tx, a).acked == if a > tx.acked then a else tx.acked
  {
  }

  lemma AckArriveKeepsInv(s: State, a: uint64)
    requires Inv(s) && Enabled(s, AckArrive(a))
    ensures Inv(Apply(s, AckArrive(a)))
  {
    AckChain(s);
    AckKeepsSender(s.tx, a);
  }

  lemma NetworkKeepsInv(s: State, step: Step)
    requires Inv(s) && Enabled(s, step)
    requires step.Duplicate? || step.Drop? || step.AckDuplicate? || step.AckDrop?
    ensures Inv(Apply(s, step))
  {
    NetKeeps(s.tx.log, Published(s.tx), s.net, s.tx.log, Published(s.tx), Apply(s, step).net);
  }

  lemma StepKeepsInv(s: State, step: Step)
    requires Inv(s) && Enabled(s, step) && |Apply(s, step).tx.log| < TWO_32
    ensures Inv(Apply(s, step))
  {
    match step
    case Tx(e) => TxKeepsInv(s, e);
    case Publish => PublishKeepsInv(s);
    case Rx(e) => RxKeepsReader(s.tx.log, Published(s.tx), s.rx, e);
    case Consume => ConsumeKeepsInv(s);
    case Arrive(f) => ArriveKeepsInv(s, f);
    case AckArrive(a) => AckArriveKeepsInv(s, a);
    case _ => NetworkKeepsInv(s, step);
  }

  lemma InitialInv(size: nat)
    ensures Inv(Initial(size))
  {
  }

  lemma {:induction false} RunGrows(s: State, steps: seq<Step>, t: State)
    requires Run(s, steps, t)
    ensures s.tx.log <= t.tx.log
    decreases |steps|
  {
    if steps != [] {
      if steps[0].Tx? { TxGrows(s.tx, steps[0].tx); }
      RunGrows(Apply(s, steps[0]), steps[1..], t);
    }
  }

  lemma {:induction false} RunKeepsInv(s: State, steps: seq<Step>, t: State)
    requires Inv(s) && Run(s, steps, t) && |t.tx.log| < TWO_32
    ensures Inv(t)
    decreases |steps|
  {
    if steps != [] {
      RunGrows(Apply(s, steps[0]), steps[1..], t);
      StepKeepsInv(s, steps[0]);
      RunKeepsInv(Apply(s, steps[0]), steps[1..], t);
    }
  }

  /** Some run from the start reaches `s`, with fewer than 2^32 frames numbered so far. */
  ghost predicate Reachable(size: nat, s: State) {
    |s.tx.log| < TWO_32 && exists steps :: Run(Initial(size), steps, s)
  }

  lemma ReachableInv(size: nat, s: State)
    requires Reachable(size, s)
    ensures Inv(s)
  {
    InitialInv(size);
    var steps :| Run(Initial(size), steps, s);
    RunKeepsInv(Initial(size), steps, s);
  }

  // ---- the steps cut the stream as `SequenceWriter.Write` does ----

  /** What is numbered, and how the rest will be cut. */
  function Plan(tx: Sender): seq<bytes> {
    tx.log + Chunks(tx.rest)
  }

  /** The chunks of all data handed to `Write` during a run. */
  function ChunksWritten(steps: seq<Step>): seq<bytes> {
    if steps == [] then []
    else (if steps[0].Tx? && steps[0].tx.BeginWrite? then Chunks(steps[0].tx.data) else []) + ChunksWritten(steps[1..])
  }

  lemma NumberFollowsPlan(tx: Sender)
    requires TxEnabled(tx, Number) && tx.rest != []
    ensures Plan(TxApply(tx, Number)) == Plan(tx)
  {
    var t := TxApply(tx, Number);
    assert Chunks(tx.rest) == [Chunk(tx.rest)] + Chunks(t.rest);
    assert t.log + Chunks(t.rest) == tx.log + ([Chunk(tx.rest)] + Chunks(t.rest));
  }

  lemma InvHasRest(tx: Sender)
    requires SenderInv(tx) && tx.pc.Admitted?
    ensures tx.rest != []
  {
  }

  lemma TxFollowsPlan(tx: Sender, e: TxEvent)
    requires SenderInv(tx) && TxEnabled(tx, e)
    ensures Plan(TxApply(tx, e)) == Plan(tx) + if e.BeginWrite? then Chunks(e.data) else []
  {
    hide SenderInv, Encode, Chunk;
    if e.Number? {
      InvHasRest(tx);
      NumberFollowsPlan(tx);
    }
  }

  lemma StepFollowsPlan(s: State, step: Step)
    requires SenderInv(s.tx) && Enabled(s, step)
    ensures Plan(Apply(s, step).tx) ==
            Plan(s.tx) + if step.Tx? && step.tx.BeginWrite? then Chunks(step.tx.data) else []
  {
    hide SenderInv, Encode, Decode, Chunk, Chunks, Flatten, Offered, Consumed, RxApply;
    if step.Tx? {
      hide TxApply;
      TxFollowsPlan(s.tx, step.tx);
    }
  }

  /** Whatever happens in between, the frames numbered so far and the chunks still to come are
      exactly the chunks of the data written. */
  lemma {:induction false} RunFollowsPlan(s: State, steps: seq<Step>, t: State)
    requires Inv(s) && Run(s, steps, t) && |t.tx.log| < TWO_32
    ensures Plan(t.tx) == Plan(s.tx) + ChunksWritten(steps)
    decreases |steps|
  {
    if steps != [] {
      var step, later := steps[0], steps[1..];
      var head := if step.Tx? && step.tx.BeginWrite? then Chunks(step.tx.data) else [];
      assert ChunksWritten(steps) == head + ChunksWritten(later);
      hide Inv, Enabled, Apply, Plan, Chunks, ChunksWritten;
      RunGrows(Apply(s, step), later, t);
      StepKeepsInv(s, step);
      InvHasSender(s);
      StepFollowsPlan(s, step);
      RunFollowsPlan(Apply(s, step), later, t);
      JoinPlans(Plan(s.tx), head, ChunksWritten(later));
    }
  }

  lemma JoinPlans(a: seq<bytes>, b: seq<bytes>, c: seq<bytes>)
    ensures (a + b) + c == a + (b + c)
  {
  }

  lemma InvHasSender(s: State)
    requires Inv(s)
    ensures SenderInv(s.tx)
  {
  }

  // ---- safety ----

  /** Whatever the network duplicates, reorders or loses, while the buffer is open the consumer has
      a prefix of exactly the bytes given to `Write`. */
  lemma OutputIsPrefix(size: nat, s: State)
    requires Reachable(size, s) && !s.rx.rcv.closed
    ensures Flatten(s.rx.taken) <= Flatten(s.rx.taken + s.rx.rcv.ch) <= s.tx.given
  {
    ReachableInv(size, s);
    var out := s.rx.taken + s.rx.rcv.ch;
    assert out == s.tx.log[..|out|];
    FlattenTake(s.tx.log, |out|);
    FlattenConcat(s.rx.taken, s.rx.rcv.ch);
  }

  /** Also after `Close`, what is delivered are written payloads, in increasing frame order, none twice. */
  lemma OrderSurvivesClose(size: nat, s: State)
    requires Reachable(size, s)
    ensures var out := s.rx.taken + s.rx.rcv.ch;
            && |out| == |s.rx.pushed| && Increasing(s.rx.pushed)
            && forall i :: 0 <= i < |out| ==> s.rx.pushed[i] < |s.tx.log| && out[i] == s.tx.log[s.rx.pushed[i]]
  {
    ReachableInv(size, s);
  }

  /** No frame is inserted once the buffer is closed. */
  predicate NoInsertAfterClose(s: State, steps: seq<Step>, t: State)
    requires Run(s, steps, t)
    decreases |steps|
  {
    steps != [] ==>
      && (steps[0].Arrive? ==> !s.rx.rcv.closed)
      && NoInsertAfterClose(Apply(s, steps[0]), steps[1..], t)
  }

  /** What was put into the channel is everything up to some frame; only an `Insert` that gave up after
      `Close` stays behind what has left the buffer. */
  ghost predicate Contiguous(rx: Reader) {
    && (forall i :: 0 <= i < |rx.pushed| ==> rx.pushed[i] == i)
    && (rx.rcv.phase.Sending? ==> rx.popped > 0)
    && (!rx.rcv.closed || !rx.rcv.phase.Idle? ==> |rx.pushed| == Settled(rx))
  }

  lemma StepKeepsContiguous(s: State, step: Step)
    requires Enabled(s, step) && Contiguous(s.rx) && (step.Arrive? ==> !s.rx.rcv.closed)
    ensures Contiguous(Apply(s, step).rx)
  {
    hide Decode, Encode;
  }

  lemma {:induction false} RunKeepsContiguous(s: State, steps: seq<Step>, t: State)
    requires Contiguous(s.rx) && Run(s, steps, t) && NoInsertAfterClose(s, steps, t)
    ensures Contiguous(t.rx)
    decreases |steps|
  {
    if steps != [] {
      StepKeepsContiguous(s, steps[0]);
      RunKeepsContiguous(Apply(s, steps[0]), steps[1..], t);
    }
  }

  /** The output stays a prefix also after `Close`, as long as no frame is inserted after it. */
  lemma PrefixUntilInsertAfterClose(size: nat, steps: seq<Step>, s: State)
    requires Run(Initial(size), steps, s) && |s.tx.log| < TWO_32 && NoInsertAfterClose(Initial(size), steps, s)
    ensures Flatten(s.rx.taken) <= Flatten(s.rx.taken + s.rx.rcv.ch) <= s.tx.given
  {
    assert Reachable(size, s);
    ReachableInv(size, s);
    RunKeepsContiguous(Initial(size), steps, s);
    var out := s.rx.taken + s.rx.rcv.ch;
    assert |out| <= |s.tx.log| by {
      if out != [] { assert s.rx.pushed[|out| - 1] < Settled(s.rx); }
    }
    assert out == s.tx.log[..|out|];
    FlattenTake(s.tx.log, |out|);
    FlattenConcat(s.rx.taken, s.rx.rcv.ch);
  }

  /** Payloads picked from the log in increasing order are shorter by at least what was left out. */
  lemma {:induction false} Picked(log: seq<bytes>, picks: seq<nat>, out: seq<bytes>)
    requires |out| == |picks| && Increasing(picks)
    requires forall i :: 0 <= i < |log| ==> |log[i]| > 0
    requires forall i :: 0 <= i < |picks| ==> picks[i] < |log| && out[i] == log[picks[i]]
    ensures |out| <= |log| && |Flatten(out)| + |log| - |out| <= |Flatten(log)|
    ensures |out| == |log| ==> out == log
    decreases |log|
  {
    if log != [] {
      var k, l := |picks| - 1, |log| - 1;
      assert log == log[..l] + [log[l]];
      FlattenSnoc(log[..l], log[l]);
      if out != [] && picks[k] == l {
        assert out == out[..k] + [out[k]];
        FlattenSnoc(out[..k], out[k]);
        Picked(log[..l], picks[..k], out[..k]);
      } else {
        assert forall i :: 0 <= i < |picks| ==> picks[i] < l;
        Picked(log[..l], picks, out);
      }
    }
  }

  /** Whatever happened, closed or not: the consumer has all that was given if and only if it has taken
      every frame and nothing is left to write. */
  lemma DeliveredExactly(s: State)
    requires Inv(s)
    ensures |s.rx.taken| <= |s.tx.log|
    ensures Flatten(s.rx.taken) == s.tx.given <==> |s.rx.taken| == |s.tx.log| && s.tx.rest == []
  {
    var picks := s.rx.pushed[..|s.rx.taken|];
    assert forall i :: 0 <= i < |picks| ==> s.rx.taken[i] == (s.rx.taken + s.rx.rcv.ch)[i];
    Picked(s.tx.log, picks, s.rx.taken);
    SenderSplits(s.tx);
  }

  lemma SenderSplits(tx: Sender)
    requires SenderInv(tx)
    ensures |tx.given| == |Flatten(tx.log)| + |tx.rest| && (tx.rest == [] ==> tx.given == Flatten(tx.log))
  {
  }

  /** At every step: acknowledged <= last ack <= consumed <= sent; acks in flight are honest, so the
      clamp changes none of them; and at most one window is unacknowledged. */
  lemma Conservation(size: nat, s: State)
    requires Reachable(size, s)
    ensures s.tx.acked <= s.rx.last <= s.rx.total <= s.tx.sent
    ensures s.rx.total == |Flatten(s.rx.taken)|
    ensures Acks.CountAll(Acks.FRESH, Acks.Sizes(s.rx.taken)) == Acks.Tally(s.rx.total, s.rx.last)
    ensures s.tx.sent == |Flatten(s.tx.log[..CountedFrames(s.tx)])|
    ensures forall a <- s.acks ::
              a <= s.rx.last && Acked(s.tx, a).acked == if a > s.tx.acked then a else s.tx.acked
    ensures s.tx.sent - s.tx.acked <= 262144
  {
    ReachableInv(size, s);
    AckChain(s);
  }
}
