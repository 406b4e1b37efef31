/** The credit window of one sender: `FlowControl` in internal/tunnel/session.go. */
module Credit {
  import opened Bytes

  function Outstanding(sent: uint64, acked: uint64): uint64 {
    if sent > acked then sent - acked else 0
  }

  /** The window test; the addition is on uint64 and wraps. */
  predicate Admits(sent: uint64, acked: uint64, window: uint64, n: uint64) {
    (Outstanding(sent, acked) + n) % TWO_64 <= window
  }

  function AfterAck(sent: uint64, acked: uint64, ack: uint64): uint64 {
    var clamped := if ack > sent then sent else ack;
    if clamped > acked then clamped else acked
  }

  function AfterAcks(sent: uint64, acked: uint64, acks: seq<uint64>): uint64 {
    if acks == [] then acked
    else AfterAck(sent, AfterAcks(sent, acked, acks[..|acks| - 1]), acks[|acks| - 1])
  }

  /** What can happen to the two counters, in the order it happens. */
  datatype Event = Sent(n: uint64) | Ack(value: uint64)

  datatype Counters = Counters(sent: uint64, acked: uint64) {
    function After(e: Event): Counters {
      match e
      case Sent(n) => Counters((sent + n) % TWO_64, acked)
      case Ack(a) => Counters(sent, AfterAck(sent, acked, a))
    }
  }

  function Replay(c: Counters, events: seq<Event>): Counters
    decreases events
  {
    if events == [] then c else Replay(c.After(events[0]), events[1..])
  }

  /** Every ack names no more bytes than were sent when it arrived. */
  predicate Honest(c: Counters, events: seq<Event>)
    decreases events
  {
    events == [] ||
    ((events[0].Ack? ==> events[0].value <= c.sent) && Honest(c.After(events[0]), events[1..]))
  }

  ghost predicate IsMaximumAck(m: uint64, start: uint64, events: seq<Event>) {
    && start <= m
    && (forall e <- events :: e.Ack? ==> e.value <= m)
    && (m == start || Ack(m) in events)
  }

  /** Acks only ever raise the acknowledged count, whatever they claim. */
  lemma {:induction false} AckedMonotone(c: Counters, events: seq<Event>, n: nat)
    requires n <= |events|
    ensures Replay(c, events[..n]).acked <= Replay(c, events).acked
    decreases events
  {
    if events != [] {
      if n == 0 {
        AckedMonotone(c.After(events[0]), events[1..], 0);
      } else {
        assert events[..n][0] == events[0] && events[..n][1..] == events[1..][..n - 1];
        AckedMonotone(c.After(events[0]), events[1..], n - 1);
      }
    }
  }

  /** Honest acks leave exactly their maximum behind. */
  lemma {:induction false} HonestAcksGiveMaximum(c: Counters, events: seq<Event>)
    requires Honest(c, events)
    ensures IsMaximumAck(Replay(c, events).acked, c.acked, events)
    decreases events
  {
    if events != [] {
      var c' := c.After(events[0]);
      HonestAcksGiveMaximum(c', events[1..]);
      var m := Replay(c, events).acked;
      forall e <- events | e.Ack? ensures e.value <= m {
        if e != events[0] { assert e in events[1..]; }
      }
    }
  }

  /** Order and repetition of honest acks do not matter: only which values arrive. */
  lemma AckOrderIrrelevant(c: Counters, xs: seq<Event>, ys: seq<Event>)
    requires Honest(c, xs) && Honest(c, ys)
    requires forall e: Event :: e.Ack? ==> (e in xs <==> e in ys)
    ensures Replay(c, xs).acked == Replay(c, ys).acked
  {
    HonestAcksGiveMaximum(c, xs);
    HonestAcksGiveMaximum(c, ys);
  }

  /** Without honesty order does matter: an ack that overtakes the bytes it names is clamped away. */
  lemma EarlyAckIsLost()
    ensures var c := Counters(0, 0);
            Replay(c, [Ack(5), Sent(10)]).acked != Replay(c, [Sent(10), Ack(5)]).acked
  {
    var c := Counters(0, 0);
    assert [Ack(5), Sent(10)][1..] == [Sent(10)] && [Sent(10), Ack(5)][1..] == [Ack(5)];
    assert Replay(c, [Ack(5), Sent(10)]) == Replay(c, [Sent(10)]) == Replay(Counters(10, 0), []);
    assert Replay(c, [Sent(10), Ack(5)]) == Replay(Counters(10, 0), [Ack(5)]) == Replay(Counters(10, 5), []);
  }

  class FlowControl {
    var sentBytes: uint64
    var ackedBytes: uint64
    const windowSize: uint64
    /** Whether the one-slot wake-up channel holds a token. */
    var blockedNotify: bool

    constructor (windowSize: uint64)
      ensures this.windowSize == windowSize
      ensures sentBytes == 0 && ackedBytes == 0 && !blockedNotify
    {
      this.windowSize := windowSize;
      sentBytes, ackedBytes, blockedNotify := 0, 0, false;
    }

    method CanSend(n: uint64) returns (ok: bool)
      ensures ok <==> Admits(sentBytes, ackedBytes, windowSize, n)
      ensures ackedBytes <= sentBytes && sentBytes - ackedBytes + n < TWO_64 ==>
                (ok <==> sentBytes - ackedBytes + n <= windowSize)
    {
      var outstanding: uint64 := 0;
      if sentBytes > ackedBytes {
        outstanding := sentBytes - ackedBytes;
      }
      ok := (outstanding + n) % TWO_64 <= windowSize;
    }

    method AddSent(n: uint64)
      modifies this`sentBytes
      ensures sentBytes == (old(sentBytes) + n) % TWO_64
    {
      sentBytes := (sentBytes + n) % TWO_64;
    }

    method UpdateAck(ack: uint64)
      modifies this`ackedBytes, this`blockedNotify
      ensures ackedBytes == AfterAck(sentBytes, old(ackedBytes), ack)
      ensures old(ackedBytes) <= sentBytes ==> old(ackedBytes) <= ackedBytes <= sentBytes
      ensures blockedNotify
    {
      var acked := ack;
      if acked > sentBytes {
        acked := sentBytes;
      }
      if acked > ackedBytes {
        ackedBytes := acked;
      }
      blockedNotify := true;
    }

    /** Waits until `n` bytes fit. `arriving` lists the acks that come in, in order, while the
        caller is blocked, before its context is cancelled; `used` of them were needed. */
    method WaitForWindow(n: uint64, arriving: seq<uint64>) returns (ok: bool, used: nat)
      modifies this`ackedBytes, this`blockedNotify
      ensures used <= |arriving|
      ensures ackedBytes == AfterAcks(sentBytes, old(ackedBytes), arriving[..used])
      ensures ok <==> Admits(sentBytes, ackedBytes, windowSize, n)
      ensures !ok ==> used == |arriving|
      ensures forall k :: 0 <= k < used ==>
                !Admits(sentBytes, AfterAcks(sentBytes, old(ackedBytes), arriving[..k]), windowSize, n)
    {
      used := 0;
      while true
        invariant used <= |arriving|
        invariant ackedBytes == AfterAcks(sentBytes, old(ackedBytes), arriving[..used])
        invariant forall k :: 0 <= k < used ==>
                    !Admits(sentBytes, AfterAcks(sentBytes, old(ackedBytes), arriving[..k]), windowSize, n)
        decreases |arriving| - used, blockedNotify
      {
        ok := CanSend(n);
        if ok {
          return;
        }
        if blockedNotify {
          blockedNotify := false;
        } else if used == |arriving| {
          return;
        } else {
          UpdateAck(arriving[used]);
          assert arriving[..used + 1][..used] == arriving[..used];
          used := used + 1;
        }
      }
    }
  }
}

/** Several goroutines sharing one `FlowControl`: the window test, `AddSent` and the wake-up
    are separate steps, so other writers and acks can come between them. */
module WindowRace {
  import opened Bytes
  import opened Frames
  import Credit

  datatype Pc = Ready | Checking(n: nat) | Waiting(n: nat) | Admitted(n: nat)

  datatype State = State(sent: nat, acked: nat, token: bool, writers: seq<Pc>)

  datatype Step = Start(w: nat, n: nat) | Check(w: nat) | Wake(w: nat) | Cancel(w: nat) | AddSent(w: nat) | Ack(value: nat)

  predicate Fits(s: State, n: nat) {
    (if s.sent > s.acked then s.sent - s.acked else 0) + n <= WINDOW
  }

  predicate Enabled(s: State, step: Step) {
    match step
    case Start(w, n) => w < |s.writers| && s.writers[w].Ready? && 0 < n <= MAX_PAYLOAD
    case Check(w) => w < |s.writers| && s.writers[w].Checking?
    case Wake(w) => w < |s.writers| && s.writers[w].Waiting? && s.token
    case Cancel(w) => w < |s.writers| && s.writers[w].Waiting?
    case AddSent(w) => w < |s.writers| && s.writers[w].Admitted?
    case Ack(_) => true
  }

  function Apply(s: State, step: Step): State
    requires Enabled(s, step)
  {
    match step
    case Start(w, n) => s.(writers := s.writers[w := Checking(n)])
    case Check(w) =>
      var n := s.writers[w].n;
      s.(writers := s.writers[w := if Fits(s, n) then Admitted(n) else Waiting(n)])
    case Wake(w) => s.(token := false, writers := s.writers[w := Checking(s.writers[w].n)])
    case Cancel(w) => s.(writers := s.writers[w := Ready])
    case AddSent(w) => s.(sent := s.sent + s.writers[w].n, writers := s.writers[w := Ready])
    case Ack(a) =>
      var clamped := if a > s.sent then s.sent else a;
      s.(acked := if clamped > s.acked then clamped else s.acked, token := true)
  }

  /** While the counters have not wrapped, the steps are the ones of the class `FlowControl`. */
  lemma StepsAreFlowControl(s: State, n: nat, ack: nat)
    requires s.acked <= s.sent && s.sent + n < TWO_64 && ack < TWO_64
    ensures Fits(s, n) <==> Credit.Admits(s.sent, s.acked, WINDOW, n)
    ensures Apply(s, Ack(ack)).acked == Credit.AfterAck(s.sent, s.acked, ack)
  {
  }

  function Initial(k: nat): State {
    State(0, 0, false, seq(k, _ => Ready))
  }

  predicate Run(s: State, steps: seq<Step>, t: State)
    decreases |steps|
  {
    if steps == [] then s == t
    else Enabled(s, steps[0]) && Run(Apply(s, steps[0]), steps[1..], t)
  }

  ghost predicate Reachable(k: nat, s: State) {
    exists steps :: Run(Initial(k), steps, s)
  }

  lemma {:induction false} RunSnoc(s: State, steps: seq<Step>, t: State, step: Step)
    requires Run(s, steps, t) && Enabled(t, step)
    ensures Run(s, steps + [step], Apply(t, step))
    decreases |steps|
  {
    if steps == [] {
      assert [step][1..] == [];
      assert Run(Apply(s, step), [], Apply(t, step));
    } else {
      RunSnoc(Apply(s, steps[0]), steps[1..], t, step);
      assert (steps + [step])[1..] == steps[1..] + [step];
    }
  }

  lemma ReachStep(k: nat, s: State, step: Step)
    requires Reachable(k, s) && Enabled(s, step)
    ensures Reachable(k, Apply(s, step))
  {
    var steps :| Run(Initial(k), steps, s);
    RunSnoc(Initial(k), steps, s, step);
  }

  /** Bytes that passed the window test but are not yet counted as sent. */
  function Pending(ws: seq<Pc>): nat {
    if ws == [] then 0 else Weight(ws[0]) + Pending(ws[1..])
  }

  function Weight(pc: Pc): nat {
    if pc.Admitted? then pc.n else 0
  }

  ghost predicate Small(ws: seq<Pc>) {
    forall pc <- ws :: !pc.Ready? ==> 0 < pc.n <= MAX_PAYLOAD
  }

  lemma {:induction false} PendingUpdate(ws: seq<Pc>, w: nat, pc: Pc)
    requires w < |ws|
    ensures Pending(ws[w := pc]) == Pending(ws) - Weight(ws[w]) + Weight(pc)
  {
    if w == 0 {
      assert ws[w := pc][1..] == ws[1..];
    } else {
      assert ws[w := pc][1..] == ws[1..][w - 1 := pc];
      PendingUpdate(ws[1..], w - 1, pc);
    }
  }

  lemma {:induction false} PendingBound(ws: seq<Pc>)
    requires Small(ws)
    ensures Pending(ws) <= |ws| * MAX_PAYLOAD
  {
    if ws != [] {
      assert ws[0] in ws;
      assert forall pc <- ws[1..] :: pc in ws;
      PendingBound(ws[1..]);
    }
  }

  lemma {:induction false} PendingOthers(ws: seq<Pc>, w: nat)
    requires Small(ws) && w < |ws| && Weight(ws[w]) == 0
    ensures Pending(ws) <= (|ws| - 1) * MAX_PAYLOAD
  {
    assert ws[0] in ws;
    assert forall pc <- ws[1..] :: pc in ws;
    if w == 0 {
      PendingBound(ws[1..]);
    } else {
      PendingOthers(ws[1..], w - 1);
    }
  }

  ghost predicate Inv(s: State) {
    && s.writers != []
    && Small(s.writers)
    && s.acked <= s.sent
    && s.sent - s.acked + Pending(s.writers) <= WINDOW + (|s.writers| - 1) * MAX_PAYLOAD
  }

  lemma StepKeepsInv(s: State, step: Step)
    requires Inv(s) && Enabled(s, step)
    ensures Inv(Apply(s, step)) && |Apply(s, step).writers| == |s.writers|
  {
    var t := Apply(s, step);
    if !step.Ack? {
      assert s.writers[step.w] in s.writers;
      PendingUpdate(s.writers, step.w, t.writers[step.w]);
      PendingOthersIfIdle(s.writers, step.w);
      forall pc <- t.writers ensures !pc.Ready? ==> 0 < pc.n <= MAX_PAYLOAD {
        var i :| 0 <= i < |t.writers| && t.writers[i] == pc;
        if i != step.w { assert s.writers[i] in s.writers; }
      }
    }
  }

  lemma PendingOthersIfIdle(ws: seq<Pc>, w: nat)
    requires Small(ws) && w < |ws|
    ensures Weight(ws[w]) == 0 ==> Pending(ws) <= (|ws| - 1) * MAX_PAYLOAD
  {
    if Weight(ws[w]) == 0 { PendingOthers(ws, w); }
  }

  lemma {:induction false} RunKeepsInv(s: State, steps: seq<Step>, t: State)
    requires Inv(s) && Run(s, steps, t)
    ensures Inv(t) && |t.writers| == |s.writers|
    decreases |steps|
  {
    if steps != [] {
      StepKeepsInv(s, steps[0]);
      RunKeepsInv(Apply(s, steps[0]), steps[1..], t);
    }
  }

  lemma {:induction false} NothingPending(k: nat)
    ensures Pending(seq(k, _ => Ready)) == 0
  {
    if k > 0 {
      NothingPending(k - 1);
      assert seq(k, _ => Ready)[1..] == seq(k - 1, _ => Ready);
    }
  }

  /** With k concurrent writers at most WINDOW + (k-1) * MAX_PAYLOAD bytes are ever unacknowledged. */
  lemma OutstandingBound(k: nat, s: State)
    requires k > 0 && Reachable(k, s)
    ensures s.acked <= s.sent
    ensures s.sent - s.acked <= 262144 + (k - 1) * 65536
  {
    NothingPending(k);
    var steps :| Run(Initial(k), steps, s);
    RunKeepsInv(Initial(k), steps, s);
  }

  /** One writer moves `n` fitting bytes from Ready to sent. */
  lemma ReachSend(k: nat, s: State, w: nat, n: nat)
    requires Reachable(k, s) && w < |s.writers| && s.writers[w] == Ready && 0 < n <= MAX_PAYLOAD && Fits(s, n)
    ensures Reachable(k, s.(sent := s.sent + n))
  {
    var s1 := Apply(s, Start(w, n));
    ReachStep(k, s, Start(w, n));
    var s2 := Apply(s1, Check(w));
    ReachStep(k, s1, Check(w));
    ReachStep(k, s2, AddSent(w));
    assert Apply(s2, AddSent(w)).writers == s.writers;
  }

  /** Three full chunks sent, and the first `admitted` writers holding a fourth each. */
  function Crowd(k: nat, admitted: nat): State
    requires admitted <= k
  {
    State(3 * MAX_PAYLOAD, 0, false, seq(k, i => if i < admitted then Admitted(MAX_PAYLOAD) else Ready))
  }

  /** Everyone has been counted except the writers from `counted` on. */
  function Burst(k: nat, counted: nat): State
    requires counted <= k
  {
    State((3 + counted) * MAX_PAYLOAD, 0, false, seq(k, i => if i < counted then Ready else Admitted(MAX_PAYLOAD)))
  }

  lemma {:induction false} ReachCrowd(k: nat, admitted: nat)
    requires 0 < k && admitted <= k
    ensures Reachable(k, Crowd(k, admitted))
  {
    if admitted == 0 {
      assert Run(Initial(k), [], Initial(k));
      ReachSend(k, Initial(k), 0, MAX_PAYLOAD);
      ReachSend(k, Initial(k).(sent := MAX_PAYLOAD), 0, MAX_PAYLOAD);
      ReachSend(k, Initial(k).(sent := 2 * MAX_PAYLOAD), 0, MAX_PAYLOAD);
      assert Initial(k).(sent := 3 * MAX_PAYLOAD) == Crowd(k, 0);
    } else {
      var w := admitted - 1;
      ReachCrowd(k, w);
      var s1 := Apply(Crowd(k, w), Start(w, MAX_PAYLOAD));
      ReachStep(k, Crowd(k, w), Start(w, MAX_PAYLOAD));
      ReachStep(k, s1, Check(w));
      assert Apply(s1, Check(w)).writers == Crowd(k, admitted).writers;
    }
  }

  lemma {:induction false} ReachBurst(k: nat, counted: nat)
    requires 0 < k && counted <= k
    ensures Reachable(k, Burst(k, counted))
  {
    if counted == 0 {
      ReachCrowd(k, k);
      assert Crowd(k, k).writers == Burst(k, 0).writers;
    } else {
      var w := counted - 1;
      ReachBurst(k, w);
      ReachStep(k, Burst(k, w), AddSent(w));
      assert Apply(Burst(k, w), AddSent(w)).writers == Burst(k, counted).writers;
    }
  }

  /** The bound is exact: for every k it is reached. */
  lemma OutstandingBoundReached(k: nat)
    requires k > 0
    ensures exists s :: Reachable(k, s) && s.sent - s.acked == 262144 + (k - 1) * 65536
  {
    ReachBurst(k, k);
    assert Burst(k, k).sent - Burst(k, k).acked == WINDOW + (k - 1) * MAX_PAYLOAD;
  }

  ghost predicate NoLostWakeup(s: State) {
    forall w :: 0 <= w < |s.writers| && s.writers[w].Waiting? && Fits(s, s.writers[w].n) ==> s.token
  }

  lemma {:induction false} SoleWriterWakes(s: State, steps: seq<Step>, t: State)
    requires |s.writers| == 1 && NoLostWakeup(s) && Run(s, steps, t)
    ensures |t.writers| == 1 && NoLostWakeup(t)
    decreases |steps|
  {
    if steps != [] {
      SoleWriterWakes(Apply(s, steps[0]), steps[1..], t);
    }
  }

  /** A lone parked writer that fits the window always has a token waiting for it. */
  lemma OneWaiterIsAlwaysWoken(s: State)
    requires Reachable(1, s)
    ensures |s.writers| == 1
    ensures s.writers[0].Waiting? && Fits(s, s.writers[0].n) ==> s.token
  {
    var steps :| Run(Initial(1), steps, s);
    SoleWriterWakes(Initial(1), steps, s);
  }

  /** Two or more writers can lose a wakeup: one ack that makes room for two of them leaves one token,
      and the writer that takes it does not pass it on. */
  lemma TwoWaitersCanLoseWakeup(k: nat)
    requires k >= 2
    ensures exists s :: Reachable(k, s) && |s.writers| == k && s.writers[1].Waiting? && Fits(s, s.writers[1].n) && !s.token
                        && s.writers[0].Ready?
  {
    ReachCrowd(k, 0);
    ReachSend(k, Crowd(k, 0), 0, MAX_PAYLOAD);
    var s0 := Crowd(k, 0).(sent := 4 * MAX_PAYLOAD);
    var s1 := Apply(s0, Start(0, MAX_PAYLOAD));
    ReachStep(k, s0, Start(0, MAX_PAYLOAD));
    var s2 := Apply(s1, Check(0));
    ReachStep(k, s1, Check(0));
    var s3 := Apply(s2, Start(1, MAX_PAYLOAD));
    ReachStep(k, s2, Start(1, MAX_PAYLOAD));
    var s4 := Apply(s3, Check(1));
    ReachStep(k, s3, Check(1));
    var s5 := Apply(s4, Ack(2 * MAX_PAYLOAD));
    ReachStep(k, s4, Ack(2 * MAX_PAYLOAD));
    var s6 := Apply(s5, Wake(0));
    ReachStep(k, s5, Wake(0));
    var s7 := Apply(s6, Check(0));
    ReachStep(k, s6, Check(0));
    ReachStep(k, s7, AddSent(0));
  }

  /** No wakeup is ever lost if and only if there is one writer. */
  lemma WakeupsAreSafeExactly(k: nat)
    requires k > 0
    ensures (forall s :: Reachable(k, s) ==> NoLostWakeup(s)) <==> k == 1
  {
    if k == 1 {
      forall s | Reachable(1, s) ensures NoLostWakeup(s) {
        OneWaiterIsAlwaysWoken(s);
      }
    } else {
      TwoWaitersCanLoseWakeup(k);
      var s :| Reachable(k, s) && |s.writers| == k && s.writers[1].Waiting? && Fits(s, s.writers[1].n) && !s.token;
      assert !NoLostWakeup(s);
    }
  }
}
