/** The receiver's reorder buffer (`ReorderBuffer` in internal/tunnel/session.go).
    `Reorder` holds the tests and the steps of one `Insert`, and the class that runs them. */
module Reorder {
  import opened Bytes

  /** What `Insert` decides about a frame. Only `Full` is reported as an error. */
  datatype Verdict = Duplicate | Full | Held

  function Judge(buf: map<uint32, bytes>, next: uint32, size: nat, n: uint32): Verdict {
    if n < next then Duplicate
    else if n - next >= size then Full
    else if n in buf then Duplicate
    else Held
  }

  function Successor(n: uint32): uint32 {
    (n + 1) % TWO_32
  }

  /** The payloads that can leave the buffer now, in order. */
  function Ready(buf: map<uint32, bytes>, next: uint32): (r: seq<bytes>)
    decreases |buf|
  {
    if next in buf then ShrinkByOne(buf, next); [buf[next]] + Ready(buf - {next}, Successor(next)) else []
  }

  lemma ShrinkByOne(buf: map<uint32, bytes>, k: uint32)
    requires k in buf
    ensures |buf - {k}| == |buf| - 1
  {
    assert (buf - {k}).Keys == buf.Keys - {k};
  }

  /** The buffer and the expected number after the first `k` of those payloads have left. */
  function Popped(buf: map<uint32, bytes>, next: uint32, k: nat): (map<uint32, bytes>, uint32)
    requires k <= |Ready(buf, next)|
    decreases k
  {
    if k == 0 then (buf, next) else Popped(buf - {next}, Successor(next), k - 1)
  }

  lemma FirstReady(buf: map<uint32, bytes>, next: uint32)
    ensures Ready(buf, next) == if next in buf then [buf[next]] + Ready(buf - {next}, Successor(next)) else []
  {
  }

  lemma NonePopped(buf: map<uint32, bytes>, next: uint32)
    ensures Popped(buf, next, 0) == (buf, next)
  {
    hide Ready;
  }

  lemma FirstPopped(buf: map<uint32, bytes>, next: uint32, k: nat)
    requires k < |Ready(buf, next)|
    ensures next in buf && k <= |Ready(buf - {next}, Successor(next))|
    ensures Popped(buf, next, k + 1) == Popped(buf - {next}, Successor(next), k)
  {
    FirstReady(buf, next);
    hide Ready;
  }

  lemma {:induction false} PopOneMore(buf: map<uint32, bytes>, next: uint32, k: nat)
    requires k <= |Ready(buf, next)|
    ensures var (b, n) := Popped(buf, next, k);
            && Ready(b, n) == Ready(buf, next)[k..]
            && (n in b <==> k < |Ready(buf, next)|)
            && (n in b ==> b[n] == Ready(buf, next)[k] && Popped(buf, next, k + 1) == (b - {n}, Successor(n)))
    decreases k
  {
    if k > 0 {
      PopOneMore(buf - {next}, Successor(next), k - 1);
      assert Ready(buf, next)[k..] == Ready(buf - {next}, Successor(next))[k - 1..];
    }
  }

  /** Buffered numbers lie in the `size` places from the expected one on. */
  ghost predicate InWindow(buf: map<uint32, bytes>, next: uint32, size: nat) {
    forall n <- buf :: next <= n < next + size
  }

  /** Taking the expected frame out keeps the buffer in its window, also where the counter wraps. */
  lemma PopKeepsWindow(buf: map<uint32, bytes>, next: uint32, size: nat)
    requires InWindow(buf, next, size) && next in buf
    ensures InWindow(buf - {next}, Successor(next), size)
  {
  }

  /** Where one `Insert` call is: it holds the mutex in every phase but `Idle`. */
  datatype Phase = Idle | Draining | Sending(payload: bytes)

  datatype Receiver = Receiver(
    buf: map<uint32, bytes>,
    next: uint32,
    size: nat,
    ch: seq<bytes>,
    phase: Phase,
    closed: bool)

  /** A frame reaches an `Insert` that has just taken the mutex. */
  function Arrive(r: Receiver, n: uint32, data: bytes): Receiver {
    match Judge(r.buf, r.next, r.size, n)
    case Held => r.(buf := r.buf[n := data], phase := Draining)
    case _ => r
  }

  /** The first copy of a frame wins: another one, also one with other content, changes nothing. */
  lemma FirstCopyWins(r: Receiver, n: uint32, data: bytes, other: bytes)
    requires r.phase.Idle?
    ensures n in r.buf ==> Arrive(r, n, data) == r
    ensures var t := Arrive(r, n, data).(phase := Idle);
            n in t.buf && n !in r.buf ==> t.buf[n] == data && Arrive(t, n, other) == t
  {
  }

  function Pop(r: Receiver): Receiver
    requires r.next in r.buf
  {
    r.(buf := r.buf - {r.next}, next := Successor(r.next), phase := Sending(r.buf[r.next]))
  }

  /** The payload goes into the channel. */
  function Push(r: Receiver): Receiver
    requires r.phase.Sending?
  {
    r.(ch := r.ch + [r.phase.payload], phase := Draining)
  }

  datatype Step = InsertStep(n: uint32, data: bytes) | PopStep | DoneStep | PushStep | AbortStep | ReceiveStep | CloseStep

  predicate Enabled(r: Receiver, step: Step) {
    match step
    case InsertStep(_, _) => r.phase.Idle?
    case PopStep => r.phase.Draining? && r.next in r.buf
    case DoneStep => r.phase.Draining? && r.next !in r.buf
    case PushStep => r.phase.Sending? && |r.ch| < r.size
    case AbortStep => r.phase.Sending? && r.closed
    case ReceiveStep => r.ch != []
    case CloseStep => true
  }

  function Apply(r: Receiver, step: Step): Receiver
    requires Enabled(r, step)
  {
    match step
    case InsertStep(n, data) => Arrive(r, n, data)
    case PopStep => Pop(r)
    case DoneStep => r.(phase := Idle)
    case PushStep => Push(r)
    case AbortStep => r.(phase := Idle)
    case ReceiveStep => r.(ch := r.ch[1..])
    case CloseStep => r.(closed := true)
  }

  predicate Run(r: Receiver, steps: seq<Step>, t: Receiver)
    decreases |steps|
  {
    if steps == [] then r == t
    else Enabled(r, steps[0]) && Run(Apply(r, steps[0]), steps[1..], t)
  }

  function Initial(size: nat): Receiver {
    Receiver(map[], 0, size, [], Idle, false)
  }

  ghost predicate Bounded(r: Receiver) {
    InWindow(r.buf, r.next, r.size) && |r.ch| <= r.size
  }

  /** In every interleaving, and past every wrap of the counter, buffered numbers stay in the window
      and the channel within its capacity. */
  lemma {:induction false} RunStaysBounded(r: Receiver, steps: seq<Step>, t: Receiver)
    requires Bounded(r) && Run(r, steps, t)
    ensures Bounded(t) && |t.buf| <= t.size
    decreases |steps|
  {
    if steps == [] {
      WindowSize(t.buf, t.next, t.size);
    } else {
      if steps[0].PopStep? { PopKeepsWindow(r.buf, r.next, r.size); }
      RunStaysBounded(Apply(r, steps[0]), steps[1..], t);
    }
  }

  function Range(from: int, n: nat): (r: set<int>)
    ensures |r| == n && forall i :: i in r <==> from <= i < from + n
  {
    if n == 0 then {} else Range(from, n - 1) + {from + n - 1}
  }

  lemma WindowSize(buf: map<uint32, bytes>, next: uint32, size: nat)
    requires InWindow(buf, next, size)
    ensures |buf| <= size
  {
    hide Range;
    var all := Range(next, size);
    var keys: set<int> := buf.Keys;
    assert all == keys + (all - keys);
  }

  /** What the consumer took out of the channel during a run. */
  function Received(r: Receiver, steps: seq<Step>, t: Receiver): seq<bytes>
    requires Run(r, steps, t)
    decreases |steps|
  {
    if steps == [] then []
    else (if steps[0].ReceiveStep? then [r.ch[0]] else []) + Received(Apply(r, steps[0]), steps[1..], t)
  }

  /** Everything on its way to the consumer: in the channel, in the hands of a blocked `Insert`,
      or in the buffer with nothing missing before it. */
  function Coming(r: Receiver): seq<bytes> {
    r.ch + (if r.phase.Sending? then [r.phase.payload] else []) + Ready(r.buf, r.next)
  }

  /** One `Insert` carried out without a pause, between two drained states. */
  function Drained(r: Receiver): Receiver {
    var (b, n) := Popped(r.buf, r.next, |Ready(r.buf, r.next)|);
    r.(buf := b, next := n, ch := r.ch + Ready(r.buf, r.next), phase := Idle)
  }

  lemma StepKeepsComing(r: Receiver, step: Step)
    requires Enabled(r, step) && !step.InsertStep? && !step.AbortStep?
    ensures Coming(r) == (if step.ReceiveStep? then [r.ch[0]] else []) + Coming(Apply(r, step))
    ensures Drained(r).buf == Drained(Apply(r, step)).buf && Drained(r).next == Drained(Apply(r, step)).next
  {
    var t := Apply(r, step);
    match step
    case PopStep => assert Ready(r.buf, r.next) == [r.buf[r.next]] + Ready(t.buf, t.next);
    case PushStep => assert Coming(r) == r.ch + ([r.phase.payload] + Ready(r.buf, r.next));
    case ReceiveStep => assert r.ch == [r.ch[0]] + t.ch;
    case _ =>
  }

  lemma {:induction false} RunKeepsComing(r: Receiver, steps: seq<Step>, t: Receiver)
    requires Run(r, steps, t)
    requires forall s <- steps :: !s.InsertStep? && !s.AbortStep?
    ensures Coming(r) == Received(r, steps, t) + Coming(t)
    ensures Drained(r).buf == Drained(t).buf && Drained(r).next == Drained(t).next
    decreases |steps|
  {
    if steps != [] {
      var step := steps[0];
      assert step in steps;
      assert forall s <- steps[1..] :: s in steps;
      RunKeepsComing(Apply(r, step), steps[1..], t);
      StepKeepsComing(r, step);
      ComingOneStep(r, step, Received(Apply(r, step), steps[1..], t), t);
    }
  }

  lemma ComingOneStep(r: Receiver, step: Step, rest: seq<bytes>, t: Receiver)
    requires Enabled(r, step)
    requires Coming(r) == (if step.ReceiveStep? then [r.ch[0]] else []) + Coming(Apply(r, step))
    requires Coming(Apply(r, step)) == rest + Coming(t)
    ensures Coming(r) == ((if step.ReceiveStep? then [r.ch[0]] else []) + rest) + Coming(t)
  {
  }

  lemma {:induction false} EndsDrained(r: Receiver, steps: seq<Step>, t: Receiver)
    requires Run(r, steps, t) && !r.phase.Idle? && t.phase.Idle?
    requires forall s <- steps :: !s.InsertStep? && !s.AbortStep?
    ensures t.next !in t.buf
    decreases |steps|
  {
    assert steps[0] in steps;
    assert forall s <- steps[1..] :: s in steps;
    if steps[0].DoneStep? {
      IdleStays(Apply(r, steps[0]), steps[1..], t);
    } else {
      EndsDrained(Apply(r, steps[0]), steps[1..], t);
    }
  }

  /** Whatever the consumer and other goroutines do in between, an `Insert` delivers the same
      payloads in the same order, and leaves the same buffer, as one that is never interrupted. */
  lemma InterleavingIrrelevant(r: Receiver, n: uint32, data: bytes, steps: seq<Step>, t: Receiver)
    requires r.phase.Idle? && Judge(r.buf, r.next, r.size, n) == Held
    requires Run(Arrive(r, n, data), steps, t) && t.phase.Idle?
    requires forall s <- steps :: !s.InsertStep? && !s.AbortStep?
    ensures var whole := Drained(Arrive(r, n, data));
            && Received(Arrive(r, n, data), steps, t) + t.ch == whole.ch
            && t.buf == whole.buf && t.next == whole.next
  {
    var start := Arrive(r, n, data);
    RunKeepsComing(start, steps, t);
    EndsDrained(start, steps, t);
    assert Coming(start) == start.ch + Ready(start.buf, start.next);
    assert Coming(t) == t.ch;
  }

  lemma {:induction false} IdleStays(r: Receiver, steps: seq<Step>, t: Receiver)
    requires Run(r, steps, t) && r.phase.Idle?
    requires forall s <- steps :: !s.InsertStep? && !s.AbortStep?
    ensures t.phase.Idle? && t.buf == r.buf && t.next == r.next
    decreases |steps|
  {
    if steps != [] {
      assert steps[0] in steps;
      assert forall s <- steps[1..] :: s in steps;
      IdleStays(Apply(r, steps[0]), steps[1..], t);
    }
  }

  /** A goroutine inside `Insert` can always go on, unless it waits for room; then the consumer's
      next receive, or a `Close`, lets it go on. */
  lemma BlockedInsertIsFreed(r: Receiver)
    requires !r.phase.Idle? && r.size > 0 && |r.ch| <= r.size
    ensures || Enabled(r, PopStep) || Enabled(r, DoneStep) || Enabled(r, PushStep)
            || (Enabled(r, ReceiveStep) && Enabled(Apply(r, ReceiveStep), PushStep))
    ensures r.phase.Sending? ==> Enabled(Apply(r, CloseStep), AbortStep)
  {
  }

  /** How much work the current `Insert` still has; it falls with every step of its own. */
  function Work(r: Receiver): nat {
    3 * |r.buf| + (match r.phase case Idle => 0 case Draining => 1 case Sending(_) => 2)
  }

  lemma DrainTerminates(r: Receiver, step: Step)
    requires Enabled(r, step) && (step.PopStep? || step.DoneStep? || step.PushStep? || step.AbortStep?)
    ensures Work(Apply(r, step)) < Work(r)
  {
    if step.PopStep? { ShrinkByOne(r.buf, r.next); }
  }

  /** Reachable from the empty buffer with nothing yet received by the consumer. */
  ghost predicate ReachedUnread(size: nat, r: Receiver) {
    exists steps :: Run(Initial(size), steps, r) && forall s: Step <- steps :: !s.ReceiveStep?
  }

  lemma {:induction false} RunSnoc(r: Receiver, steps: seq<Step>, t: Receiver, step: Step)
    requires Run(r, steps, t) && Enabled(t, step)
    ensures Run(r, steps + [step], Apply(t, step))
    decreases |steps|
  {
    if steps == [] {
      assert [step][1..] == [];
      assert Run(Apply(r, step), [], Apply(t, step));
    } else {
      RunSnoc(Apply(r, steps[0]), steps[1..], t, step);
      assert (steps + [step])[1..] == steps[1..] + [step];
    }
  }

  lemma ReachStep(size: nat, r: Receiver, step: Step)
    requires ReachedUnread(size, r) && Enabled(r, step) && !step.ReceiveStep?
    ensures ReachedUnread(size, Apply(r, step))
  {
    var steps :| Run(Initial(size), steps, r) && forall s: Step <- steps :: !s.ReceiveStep?;
    RunSnoc(Initial(size), steps, r, step);
  }

  /** After `Close`, a popped payload can be dropped and the one behind it still delivered:
      payloads 0 and 1 have left the buffer, and only payload 1 is in the channel. */
  lemma CloseCanSkipPayload(a: bytes, b: bytes, c: bytes)
    ensures ReachedUnread(4, Receiver(map[2 := c], 2, 4, [b], Draining, true))
  {
    var r0 := Initial(4);
    assert Run(r0, [], r0);
    var r1 := Apply(r0, InsertStep(1, b));
    ReachStep(4, r0, InsertStep(1, b));
    var r2 := Apply(r1, DoneStep);
    ReachStep(4, r1, DoneStep);
    var r3 := Apply(r2, InsertStep(0, a));
    ReachStep(4, r2, InsertStep(0, a));
    var r4 := Apply(r3, PopStep);
    ReachStep(4, r3, PopStep);
    var r5 := Apply(r4, CloseStep);
    ReachStep(4, r4, CloseStep);
    var r6 := Apply(r5, AbortStep);
    ReachStep(4, r5, AbortStep);
    assert r6 == Receiver(map[1 := b], 1, 4, [], Idle, true);
    var r7 := Apply(r6, InsertStep(2, c));
    ReachStep(4, r6, InsertStep(2, c));
    var r8 := Apply(r7, PopStep);
    ReachStep(4, r7, PopStep);
    ReachStep(4, r8, PushStep);
    assert Apply(r8, PushStep) == Receiver(map[2 := c], 2, 4, [b], Draining, true);
  }

  lemma {:induction false} PoppedShrinks(buf: map<uint32, bytes>, next: uint32, k: nat)
    requires k <= |Ready(buf, next)|
    ensures Popped(buf, next, k).0.Keys <= buf.Keys
    ensures k > 0 ==> next !in Popped(buf, next, k).0
    decreases k
  {
    if k > 0 { PoppedShrinks(buf - {next}, Successor(next), k - 1); }
  }

  class ReorderBuffer {
    var buf: map<uint32, bytes>
    var nextSeq: uint32
    const size: nat
    /** The bounded channel, oldest payload first. */
    var dataCh: seq<bytes>
    var closed: bool
    /** Everything the consumer has taken from the channel. */
    ghost var taken: seq<bytes>

    ghost predicate Valid()
      reads this
    {
      |dataCh| <= size && InWindow(buf, nextSeq, size)
    }

    /** Everything ever put into the channel. */
    ghost function Delivered(): seq<bytes>
      reads this
    {
      taken + dataCh
    }

    constructor (size: nat)
      ensures Valid() && this.size == size
      ensures buf == map[] && nextSeq == 0 && Delivered() == [] && !closed
    {
      this.size := size;
      buf, nextSeq, dataCh, closed, taken := map[], 0, [], false, [];
    }

    /** Offers a payload to the channel while other goroutines run: they may receive, and `closing` says
        whether one of them closes the buffer. It returns when the payload is in the channel or the
        buffer is closed. */
    method Offer(payload: bytes, closing: bool) returns (sent: bool)
      requires size > 0 && |dataCh| <= size
      modifies this`dataCh, this`closed, this`taken
      ensures |dataCh| <= size
      ensures closed == (old(closed) || closing)
      ensures Delivered() == old(Delivered()) + (if sent then [payload] else [])
      ensures !sent ==> closed
    {
      closed := closed || closing;
      var k: nat :| k <= |dataCh| && (closed || |dataCh| - k < size);
      assert dataCh == dataCh[..k] + dataCh[k..];
      taken, dataCh := taken + dataCh[..k], dataCh[k..];
      sent := *;
      sent := |dataCh| < size && (sent || !closed);
      if sent {
        dataCh := dataCh + [payload];
      }
    }

    /** The buffer was `b` with `next` expected, everything delivered before is `was`, and from the offer
        `from` on, if any, it has been closed. The first `sent` ready payloads were delivered in order:
        all of them, unless the next one was dropped because the buffer was closed when it was offered. */
    ghost predicate EmptiedBy(b: map<uint32, bytes>, next: uint32, was: seq<bytes>, from: Option<nat>, sent: nat)
      reads this
    {
      var ready := Ready(b, next);
      && sent <= |ready| && Delivered() == was + ready[..sent]
      && (buf, nextSeq) == Popped(b, next, if sent < |ready| then sent + 1 else sent)
      && (sent < |ready| ==> from.Some? && from.value <= sent)
    }

    ghost predicate Emptied(b: map<uint32, bytes>, next: uint32, was: seq<bytes>, from: Option<nat>)
      reads this
    {
      exists sent: nat :: EmptiedBy(b, next, was, from, sent)
    }

    /** What one `Insert` does while another goroutine closes the buffer during the offer `closeAt`, if
        any: nothing unless the frame is held; if it is, the ready payloads leave. Only a close by
        another goroutine closes the buffer. */
    twostate predicate Inserted(n: uint32, data: bytes, closeAt: Option<nat>)
      reads this
    {
      if Judge(old(buf), old(nextSeq), size, n) != Held then unchanged(this)
      else
        var b := old(buf)[n := data];
        var ready := Ready(b, old(nextSeq));
        && Emptied(b, old(nextSeq), old(Delivered()), if old(closed) then Some(0) else closeAt)
        && closed == (old(closed) || (closeAt.Some? && closeAt.value < |ready|))
        && (!closed ==> Delivered() == old(Delivered()) + ready && (buf, nextSeq) == Popped(b, old(nextSeq), |ready|))
        && (ready != [] ==> old(nextSeq) !in buf)
    }

    /** The drain loop of `Insert`: while the expected frame is buffered, take it out and offer it. */
    method Drain(closeAt: Option<nat>)
      requires Valid()
      modifies this`buf, this`nextSeq, this`dataCh, this`closed, this`taken
      ensures Valid()
      ensures Emptied(old(buf), old(nextSeq), old(Delivered()), if old(closed) then Some(0) else closeAt)
      ensures closed == (old(closed) || (closeAt.Some? && closeAt.value < |Ready(old(buf), old(nextSeq))|))
    {
      ghost var from := if closed then Some(0) else closeAt;
      var offers: nat := 0;
      ghost var was, b0, n0 := Delivered(), buf, nextSeq;
      ghost var ready := Ready(b0, n0);
      while nextSeq in buf
        invariant offers <= |ready| && (buf, nextSeq) == Popped(b0, n0, offers)
        invariant InWindow(buf, nextSeq, size) && |dataCh| <= size
        invariant Delivered() == was + ready[..offers]
        invariant closed == (old(closed) || (closeAt.Some? && closeAt.value < offers))
        decreases |buf|
      {
        PopOneMore(b0, n0, offers);
        PopKeepsWindow(buf, nextSeq, size);
        ShrinkByOne(buf, nextSeq);
        var payload := buf[nextSeq];
        buf := buf - {nextSeq};
        nextSeq := Successor(nextSeq);
        var sent := Offer(payload, closeAt == Some(offers));
        if !sent {
          assert EmptiedBy(b0, n0, was, from, offers);
          return;
        }
        offers := offers + 1;
        assert ready[..offers] == ready[..offers - 1] + [payload];
      }
      PopOneMore(b0, n0, offers);
      assert EmptiedBy(b0, n0, was, from, offers);
    }

    /** Takes one frame; the only error is that it lies too far ahead. Another goroutine closes the buffer
        during the offer `closeAt` of this call, if any. */
    method Insert(n: uint32, data: bytes, closeAt: Option<nat>) returns (full: bool)
      requires Valid()
      modifies this`buf, this`nextSeq, this`dataCh, this`closed, this`taken
      ensures Valid()
      ensures full <==> old(nextSeq) + size <= n
      ensures full || n < old(nextSeq) || n in old(buf) ==> unchanged(this)
      ensures Inserted(n, data, closeAt)
    {
      if n < nextSeq {
        return false;
      }
      if n - nextSeq >= size {
        return true;
      }
      if n in buf {
        return false;
      }
      buf := buf[n := data];
      full := false;
      Drain(closeAt);
      EmptiedMoves(old(buf)[n := data], old(nextSeq), old(Delivered()), if old(closed) then Some(0) else closeAt);
    }

    /** Everything ready was delivered unless the buffer was closed meanwhile; at least one payload left. */
    lemma EmptiedMoves(b: map<uint32, bytes>, next: uint32, was: seq<bytes>, from: Option<nat>)
      requires Emptied(b, next, was, from)
      ensures var ready := Ready(b, next);
              && (from.None? || from.value >= |ready| ==>
                    Delivered() == was + ready && (buf, nextSeq) == Popped(b, next, |ready|))
              && (ready != [] ==> next !in buf)
    {
      var ready := Ready(b, next);
      var sent: nat :| EmptiedBy(b, next, was, from, sent);
      assert ready[..|ready|] == ready;
      PoppedShrinks(b, next, if sent < |ready| then sent + 1 else sent);
    }

    method Receive() returns (payload: bytes)
      requires Valid() && dataCh != []
      modifies this`dataCh, this`taken
      ensures Valid() && Delivered() == old(Delivered())
      ensures taken == old(taken) + [payload]
    {
      payload := dataCh[0];
      assert dataCh == [dataCh[0]] + dataCh[1..];
      taken, dataCh := taken + [payload], dataCh[1..];
    }

    method Close()
      modifies this`closed
      ensures closed
    {
      closed := true;
    }
  }
}
