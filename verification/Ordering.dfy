/** What whole arrival orders do to the reorder buffer, and what the 32-bit numbers do to it.
    Frames have mathematical indices 0, 1, 2, ...; on the wire they carry them modulo 2^32. */
module Ordering {
  import opened Bytes
  import opened Reorder

  /** The buffer between two `Insert` calls, all it has delivered, and whether it ever refused a frame. */
  datatype Feed = Feed(buf: map<uint32, bytes>, next: uint32, out: seq<bytes>, refused: bool)

  function Take(f: Feed, size: nat, n: uint32, data: bytes): Feed {
    match Judge(f.buf, f.next, size, n)
    case Duplicate => f
    case Full => f.(refused := true)
    case Held =>
      var b := f.buf[n := data];
      var ready := Ready(b, f.next);
      var (b', next') := Popped(b, f.next, |ready|);
      Feed(b', next', f.out + ready, f.refused)
  }

  function WireNumber(i: nat): uint32 {
    i % TWO_32
  }

  ghost predicate Indices(frames: seq<bytes>, arrivals: seq<nat>) {
    forall p :: 0 <= p < |arrivals| ==> arrivals[p] < |frames|
  }

  /** Frames arrive by index, with any repetition and in any order. */
  ghost function FeedAll(frames: seq<bytes>, size: nat, arrivals: seq<nat>): Feed
    requires Indices(frames, arrivals)
  {
    if arrivals == [] then Feed(map[], 0, [], false)
    else
      var last := arrivals[|arrivals| - 1];
      Take(FeedAll(frames, size, arrivals[..|arrivals| - 1]), size, WireNumber(last), frames[last])
  }

  // ---- fewer than 2^32 frames ----

  ghost predicate Copies(buf: map<uint32, bytes>, frames: seq<bytes>) {
    forall i <- buf :: i < |frames| && buf[i] == frames[i]
  }

  ghost predicate FeedInv(f: Feed, frames: seq<bytes>, size: nat) {
    && |frames| < TWO_32
    && |f.out| <= |frames| && f.next == |f.out|
    && f.out == frames[..|f.out|]
    && Copies(f.buf, frames)
    && InWindow(f.buf, f.next, size)
    && f.next !in f.buf
  }

  predicate Accepted(f: Feed, i: nat) {
    i < |f.out| || i in f.buf
  }

  /** The frames that leave are consecutive; what stays are the frames behind them. */
  lemma {:induction false} DrainDelivers(buf: map<uint32, bytes>, next: uint32, frames: seq<bytes>)
    requires |frames| < TWO_32 && next <= |frames| && Copies(buf, frames)
    requires forall i <- buf :: next <= i
    ensures var k := |Ready(buf, next)|;
            && next + k <= |frames| && Ready(buf, next) == frames[next..next + k]
            && Popped(buf, next, k).1 == next + k
    decreases |buf|
  {
    hide Ready, Popped;
    FirstReady(buf, next);
    NonePopped(buf, next);
    if next in buf {
      ShrinkByOne(buf, next);
      var later := buf - {next};
      DrainDelivers(later, next + 1, frames);
      var k := |Ready(later, next + 1)|;
      FirstPopped(buf, next, k);
      assert frames[next..next + 1 + k] == [frames[next]] + frames[next + 1..next + 1 + k];
    }
  }

  lemma {:induction false} DrainKeeps(buf: map<uint32, bytes>, next: uint32)
    requires forall i <- buf :: next <= i < TWO_32 - 1
    ensures var k := |Ready(buf, next)|; var b := Popped(buf, next, k).0;
            && next + k !in b
            && b.Keys == (set i <- buf | next + k <= i) && (forall i <- b :: b[i] == buf[i])
            && (forall i: uint32 :: next <= i < next + k ==> i in buf)
    decreases |buf|
  {
    if next in buf {
      ShrinkByOne(buf, next);
      DrainKeeps(buf - {next}, next + 1);
      var k := |Ready(buf, next)|;
      forall i: uint32 | next <= i < next + k ensures i in buf {
        assert i == next || i in buf - {next};
      }
      var b := Popped(buf, next, k).0;
      assert b == Popped(buf - {next}, next + 1, k - 1).0;
    }
  }

  lemma TakeHeld(f: Feed, size: nat, frames: seq<bytes>, m: nat)
    requires FeedInv(f, frames, size) && m < |frames| && Judge(f.buf, f.next, size, m) == Held
    ensures var f' := Take(f, size, m, frames[m]);
            FeedInv(f', frames, size) && f'.refused == f.refused
            && (forall i: nat :: Accepted(f', i) <==> Accepted(f, i) || i == m)
  {
    hide Ready, Popped;
    var b := f.buf[m := frames[m]];
    DrainDelivers(b, f.next, frames);
    DrainKeeps(b, f.next);
    var k := |Ready(b, f.next)|;
    assert frames[..|f.out| + k] == frames[..|f.out|] + frames[|f.out|..|f.out| + k];
    var f' := Take(f, size, m, frames[m]);
    forall i: nat ensures Accepted(f', i) <==> Accepted(f, i) || i == m {
      if |f.out| <= i < |f.out| + k {
        assert i in b;
      }
    }
  }

  lemma TakeOne(f: Feed, size: nat, frames: seq<bytes>, m: nat)
    requires FeedInv(f, frames, size) && m < |frames|
    ensures var f' := Take(f, size, m, frames[m]);
            && FeedInv(f', frames, size)
            && (f'.refused <==> f.refused || |f.out| + size <= m)
            && (forall i: nat :: Accepted(f', i) <==> Accepted(f, i) || (i == m && m < |f.out| + size))
  {
    if Judge(f.buf, f.next, size, m) == Held {
      TakeHeld(f, size, frames, m);
    }
  }

  lemma EmptyFeed(frames: seq<bytes>, size: nat)
    requires |frames| < TWO_32
    ensures FeedInv(Feed(map[], 0, [], false), frames, size)
  {
  }

  /** Everything delivered is a prefix of the frames in order, whatever arrives. */
  lemma {:induction false} FeedKeepsInv(frames: seq<bytes>, size: nat, arrivals: seq<nat>)
    requires |frames| < TWO_32 && Indices(frames, arrivals)
    ensures FeedInv(FeedAll(frames, size, arrivals), frames, size)
  {
    hide Take, FeedInv;
    EmptyFeed(frames, size);
    if arrivals != [] {
      var init := arrivals[..|arrivals| - 1];
      var last := arrivals[|arrivals| - 1];
      FeedKeepsInv(frames, size, init);
      TakeOne(FeedAll(frames, size, init), size, frames, last);
    }
  }

  /** Frame `m` arrived at position `p` while it lay inside the window. */
  ghost predicate CameInWindow(frames: seq<bytes>, size: nat, arrivals: seq<nat>, m: nat, p: nat)
    requires Indices(frames, arrivals)
  {
    p < |arrivals| && arrivals[p] == m && m < |FeedAll(frames, size, arrivals[..p]).out| + size
  }

  lemma CameBeforeOrLast(frames: seq<bytes>, size: nat, arrivals: seq<nat>, m: nat)
    requires arrivals != [] && Indices(frames, arrivals)
    ensures var init := arrivals[..|arrivals| - 1];
            (exists p :: CameInWindow(frames, size, arrivals, m, p)) <==>
            (exists p :: CameInWindow(frames, size, init, m, p))
            || (arrivals[|arrivals| - 1] == m && m < |FeedAll(frames, size, init).out| + size)
  {
    hide FeedAll;
    var last := |arrivals| - 1;
    var init := arrivals[..last];
    forall p | 0 <= p < last
      ensures CameInWindow(frames, size, init, m, p) <==> CameInWindow(frames, size, arrivals, m, p)
    {
      assert init[..p] == arrivals[..p];
    }
    assert CameInWindow(frames, size, arrivals, m, last) <==>
           arrivals[last] == m && m < |FeedAll(frames, size, init).out| + size;
  }

  /** A frame is buffered or delivered exactly when one of its copies came inside the window; if all
      of them came too early it is gone for good, and the output never gets past it. */
  lemma {:induction false} AcceptedExactly(frames: seq<bytes>, size: nat, arrivals: seq<nat>, m: nat)
    requires |frames| < TWO_32 && Indices(frames, arrivals)
    ensures var f := FeedAll(frames, size, arrivals);
            && (Accepted(f, m) <==> exists p :: CameInWindow(frames, size, arrivals, m, p))
            && (!Accepted(f, m) ==> |f.out| <= m)
  {
    hide Take, FeedInv;
    if arrivals == [] {
      hide FeedAll;
      assert FeedAll(frames, size, arrivals) == Feed(map[], 0, [], false) by { EmptyFeedAll(frames, size); }
    } else {
      var init := arrivals[..|arrivals| - 1];
      AcceptedExactly(frames, size, init, m);
      FeedKeepsInv(frames, size, init);
      TakeOne(FeedAll(frames, size, init), size, frames, arrivals[|arrivals| - 1]);
      CameBeforeOrLast(frames, size, arrivals, m);
      hide CameInWindow;
    }
  }

  lemma EmptyFeedAll(frames: seq<bytes>, size: nat)
    ensures FeedAll(frames, size, []) == Feed(map[], 0, [], false)
  {
  }

  /** Each frame arrives only after all frames `size` or more places before it. */
  ghost predicate Displaced(arrivals: seq<nat>, size: nat) {
    forall p, j: nat :: 0 <= p < |arrivals| && j + size <= arrivals[p] ==> j in arrivals[..p]
  }

  lemma DisplacedInit(arrivals: seq<nat>, size: nat)
    requires arrivals != []
    ensures var init := arrivals[..|arrivals| - 1]; var last := arrivals[|arrivals| - 1];
            Displaced(arrivals, size) <==>
            Displaced(init, size) && forall j: nat :: j + size <= last ==> j in init
  {
    var init := arrivals[..|arrivals| - 1];
    assert forall p :: 0 <= p < |init| ==> init[p] == arrivals[p] && init[..p] == arrivals[..p];
    if Displaced(init, size) && forall j: nat :: j + size <= arrivals[|arrivals| - 1] ==> j in init {
      forall p, j: nat | 0 <= p < |arrivals| && j + size <= arrivals[p] ensures j in arrivals[..p] {
        if p < |init| { assert j + size <= init[p]; }
      }
    }
    if Displaced(arrivals, size) {
      forall p, j: nat | 0 <= p < |init| && j + size <= init[p] ensures j in init[..p] {
        assert j + size <= arrivals[p];
      }
      forall j: nat | j + size <= arrivals[|arrivals| - 1] ensures j in init {
        assert j in arrivals[..|arrivals| - 1];
      }
    }
  }

  /** What the buffer has accepted against what has arrived. */
  ghost predicate InStep(f: Feed, arrivals: seq<nat>, size: nat) {
    && (!f.refused <==> Displaced(arrivals, size))
    && (!f.refused ==> forall i: nat :: Accepted(f, i) <==> i in arrivals)
  }

  lemma StaysInStep(f: Feed, f': Feed, init: seq<nat>, last: nat, size: nat)
    requires InStep(f, init, size) && !Accepted(f, |f.out|)
    requires f'.refused <==> f.refused || |f.out| + size <= last
    requires forall i: nat :: Accepted(f', i) <==> Accepted(f, i) || (i == last && last < |f.out| + size)
    ensures InStep(f', init + [last], size)
  {
    assert (init + [last])[..|init|] == init;
    DisplacedInit(init + [last], size);
    if !f.refused {
      if |f.out| + size <= last {
        assert |f.out| !in init;
      } else {
        forall j: nat | j + size <= last ensures j in init {
          assert Accepted(f, j);
        }
      }
    }
  }

  lemma TakeStaysInStep(f: Feed, size: nat, frames: seq<bytes>, init: seq<nat>, last: nat)
    requires FeedInv(f, frames, size) && InStep(f, init, size) && last < |frames|
    ensures InStep(Take(f, size, WireNumber(last), frames[last]), init + [last], size)
  {
    assert !Accepted(f, |f.out|);
    hide Take, InStep, FeedInv;
    TakeOne(f, size, frames, last);
    StaysInStep(f, Take(f, size, last, frames[last]), init, last, size);
  }

  lemma {:induction false} AcceptedIsArrived(frames: seq<bytes>, size: nat, arrivals: seq<nat>)
    requires |frames| < TWO_32 && Indices(frames, arrivals)
    ensures InStep(FeedAll(frames, size, arrivals), arrivals, size)
  {
    if arrivals != [] {
      hide Take, InStep, FeedInv;
      var init := arrivals[..|arrivals| - 1];
      var last := arrivals[|arrivals| - 1];
      assert arrivals == init + [last];
      AcceptedIsArrived(frames, size, init);
      FeedKeepsInv(frames, size, init);
      TakeStaysInStep(FeedAll(frames, size, init), size, frames, init, last);
    }
  }

  /** No frame is ever refused exactly when the arrival order displaces none by `size` or more. */
  lemma NeverFullExactly(frames: seq<bytes>, size: nat, arrivals: seq<nat>)
    requires |frames| < TWO_32 && Indices(frames, arrivals)
    ensures !FeedAll(frames, size, arrivals).refused <==> Displaced(arrivals, size)
  {
    AcceptedIsArrived(frames, size, arrivals);
  }

  /** Such an order, once every frame has arrived at least once, delivers exactly the frames in
      order: the output does not depend on the order of arrival or on duplicates. */
  lemma AllFramesInOrder(frames: seq<bytes>, size: nat, arrivals: seq<nat>)
    requires |frames| < TWO_32 && Indices(frames, arrivals) && Displaced(arrivals, size)
    requires forall i: nat :: i < |frames| ==> i in arrivals
    ensures FeedAll(frames, size, arrivals).out == frames
  {
    AcceptedIsArrived(frames, size, arrivals);
    FeedKeepsInv(frames, size, arrivals);
    var f := FeedAll(frames, size, arrivals);
    assert !Accepted(f, |f.out|);
    assert frames[..|frames|] == frames;
  }

  // ---- past 2^32 frames ----

  /** The number of new frames in an in-order arrival list that may repeat older ones. */
  function NewFrames(arrivals: seq<nat>): nat {
    if arrivals == [] then 0
    else
      var before := NewFrames(arrivals[..|arrivals| - 1]);
      if arrivals[|arrivals| - 1] == before then before + 1 else before
  }

  /** Every arrival is the next new frame or a repetition that is not too old. */
  ghost predicate InOrder(arrivals: seq<nat>, size: nat) {
    arrivals == [] ||
    (var init := arrivals[..|arrivals| - 1];
     var last := arrivals[|arrivals| - 1];
     InOrder(init, size) && last <= NewFrames(init) && NewFrames(init) - last <= TWO_32 - size)
  }

  /** A late copy less than 2^32 - size places old is never taken for a new frame. */
  lemma LateCopyNotHeld(buf: map<uint32, bytes>, size: nat, next: nat, m: nat)
    requires m < next && next - m <= TWO_32 - size
    ensures Judge(buf, WireNumber(next), size, WireNumber(m)) != Held
  {
    var q, q' := next / TWO_32, m / TWO_32;
    assert next == q * TWO_32 + WireNumber(next) && m == q' * TWO_32 + WireNumber(m);
  }

  /** The expected frame goes straight through an empty buffer. */
  lemma NextFramePasses(f: Feed, size: nat, data: bytes)
    requires f.buf == map[] && size > 0
    ensures Take(f, size, f.next, data) == Feed(map[], Successor(f.next), f.out + [data], f.refused)
  {
    var b := f.buf[f.next := data];
    assert b - {f.next} == map[];
    assert Ready(b - {f.next}, Successor(f.next)) == [];
    assert Ready(b, f.next) == [data];
    assert Popped(b, f.next, 1) == Popped(b - {f.next}, Successor(f.next), 0);
  }

  ghost predicate Exact(f: Feed, frames: seq<bytes>, n: nat) {
    n <= |frames| && f.out == frames[..n] && f.buf == map[] && f.next == WireNumber(n)
  }

  lemma ExactStep(f: Feed, size: nat, frames: seq<bytes>, n: nat, m: nat)
    requires 0 < size <= TWO_32 && Exact(f, frames, n) && m < |frames| && m <= n && n - m <= TWO_32 - size
    ensures Exact(Take(f, size, WireNumber(m), frames[m]), frames, if m == n then n + 1 else n)
  {
    if m == n {
      NextFramePasses(f, size, frames[n]);
      assert frames[..n + 1] == frames[..n] + [frames[n]];
      WrappedAdd32(n, 1);
    } else {
      LateCopyNotHeld(f.buf, size, n, m);
    }
  }

  /** In order, the buffer is exact for ever: past every wrap of the 32-bit counter, and with
      repetitions of recent frames. */
  lemma {:induction false} InOrderForever(frames: seq<bytes>, size: nat, arrivals: seq<nat>)
    requires 0 < size <= TWO_32 && Indices(frames, arrivals) && InOrder(arrivals, size)
    ensures Exact(FeedAll(frames, size, arrivals), frames, NewFrames(arrivals))
  {
    if arrivals != [] {
      hide Take, Exact, WireNumber;
      var init := arrivals[..|arrivals| - 1];
      InOrderForever(frames, size, init);
      ExactStep(FeedAll(frames, size, init), size, frames, NewFrames(init), arrivals[|arrivals| - 1]);
    }
  }

  /** An early frame in the window is taken exactly when no multiple of 2^32 lies between it and
      the expected one; otherwise it is dropped as a duplicate. */
  lemma EarlyFrameHeldExactly(buf: map<uint32, bytes>, size: nat, next: nat, m: nat)
    requires next <= m < next + size && size <= TWO_32 && WireNumber(m) !in buf
    ensures Judge(buf, WireNumber(next), size, WireNumber(m)) ==
            if m / TWO_32 == next / TWO_32 then Held else Duplicate
  {
    var q, q' := next / TWO_32, m / TWO_32;
    assert next == q * TWO_32 + WireNumber(next) && m == q' * TWO_32 + WireNumber(m);
    assert q' == q || q' == q + 1;
  }
}
