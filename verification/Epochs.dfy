/** Any number of frames in any tolerable order: the 32-bit numbers divide the frames into epochs of
    2^32, and inside one epoch the unsigned tests of `Insert` see the true distance. */
module Epochs {
  import opened Bytes
  import opened Reorder
  import opened Ordering

  function Epoch(i: nat): nat {
    i / TWO_32
  }

  /** The frame with this number in the epoch of frame `n`. */
  function Index(n: nat, k: uint32): nat {
    Epoch(n) * TWO_32 + k
  }

  lemma IndexOf(n: nat, i: nat)
    requires Epoch(i) == Epoch(n)
    ensures Index(n, WireNumber(i)) == i
  {
  }

  /** The successor is in the same epoch, or the number starts again at zero. */
  lemma NextNumber(n: nat)
    ensures WireNumber(n + 1) == Successor(WireNumber(n))
    ensures if WireNumber(n) + 1 < TWO_32 then Epoch(n + 1) == Epoch(n) else Epoch(n + 1) == Epoch(n) + 1
  {
    var w := WireNumber(n);
    assert n == Epoch(n) * TWO_32 + w;
    if w + 1 < TWO_32 {
      assert n + 1 == Epoch(n) * TWO_32 + (w + 1);
    } else {
      assert n + 1 == (Epoch(n) + 1) * TWO_32;
    }
  }

  /** Buffered frames are copies from the epoch of `n`, not before it. */
  ghost predicate Waiting(buf: map<uint32, bytes>, n: nat, frames: seq<bytes>) {
    forall k <- buf :: WireNumber(n) <= k && Index(n, k) < |frames| && buf[k] == frames[Index(n, k)]
  }

  predicate Buffered(buf: map<uint32, bytes>, n: nat, i: nat) {
    Epoch(i) == Epoch(n) && WireNumber(i) in buf
  }

  lemma PopStaysWaiting(buf: map<uint32, bytes>, n: nat, frames: seq<bytes>)
    requires Waiting(buf, n, frames) && WireNumber(n) in buf
    ensures n < |frames| && buf[WireNumber(n)] == frames[n]
    ensures Waiting(buf - {WireNumber(n)}, n + 1, frames)
    ensures forall i: nat :: n <= i ==>
              (Buffered(buf, n, i) <==> i == n || Buffered(buf - {WireNumber(n)}, n + 1, i))
  {
    IndexOf(n, n);
    NextNumber(n);
    forall i: nat | n <= i
      ensures Buffered(buf, n, i) <==> i == n || Buffered(buf - {WireNumber(n)}, n + 1, i)
    {
      if Epoch(i) == Epoch(n) { IndexOf(n, i); }
    }
  }

  /** One drain delivers consecutive frames, across the end of the epoch if it gets there. */
  lemma {:induction false} DrainAcross(buf: map<uint32, bytes>, n: nat, frames: seq<bytes>)
    requires n <= |frames| && Waiting(buf, n, frames)
    ensures var k := |Ready(buf, WireNumber(n))|; var (b, next) := Popped(buf, WireNumber(n), k);
            && n + k <= |frames| && Ready(buf, WireNumber(n)) == frames[n..n + k]
            && next == WireNumber(n + k) && next !in b && Waiting(b, n + k, frames)
            && forall i: nat :: n <= i ==> (Buffered(buf, n, i) <==> i < n + k || Buffered(b, n + k, i))
    decreases |buf|
  {
    hide Ready, Popped, Waiting, Buffered, WireNumber, Successor;
    var w := WireNumber(n);
    FirstReady(buf, w);
    NonePopped(buf, w);
    if w in buf {
      var later := buf - {w};
      ShrinkByOne(buf, w);
      PopStaysWaiting(buf, n, frames);
      NextNumber(n);
      DrainAcross(later, n + 1, frames);
      var k := |Ready(later, WireNumber(n + 1))|;
      FirstPopped(buf, w, k);
      assert frames[n..n + 1 + k] == [frames[n]] + frames[n + 1..n + 1 + k];
    }
  }

  ghost predicate EpochInv(f: Feed, frames: seq<bytes>) {
    && |f.out| <= |frames| && f.out == frames[..|f.out|]
    && f.next == WireNumber(|f.out|) && f.next !in f.buf
    && Waiting(f.buf, |f.out|, frames)
  }

  predicate Taken(f: Feed, i: nat) {
    i < |f.out| || Buffered(f.buf, |f.out|, i)
  }

  /** The frame is late but recent, or early inside the window and the epoch. */
  predicate Tolerable(n: nat, size: nat, m: nat) {
    if m < n then n - m <= TWO_32 - size else m < n + size && Epoch(m) == Epoch(n)
  }

  lemma InsertStaysWaiting(buf: map<uint32, bytes>, n: nat, frames: seq<bytes>, m: nat)
    requires Waiting(buf, n, frames) && n <= m < |frames| && Epoch(m) == Epoch(n)
    ensures Waiting(buf[WireNumber(m) := frames[m]], n, frames)
    ensures forall i: nat :: Buffered(buf[WireNumber(m) := frames[m]], n, i) <==> Buffered(buf, n, i) || i == m
  {
    IndexOf(n, m);
    IndexOf(n, n);
    forall i: nat ensures Buffered(buf[WireNumber(m) := frames[m]], n, i) <==> Buffered(buf, n, i) || i == m {
      if Epoch(i) == Epoch(n) { IndexOf(n, i); }
    }
  }

  lemma EarlyVerdict(buf: map<uint32, bytes>, n: nat, size: nat, m: nat)
    requires n <= m < n + size && Epoch(m) == Epoch(n)
    ensures Judge(buf, WireNumber(n), size, WireNumber(m)) == if WireNumber(m) in buf then Duplicate else Held
  {
    IndexOf(n, m);
    IndexOf(n, n);
  }

  lemma TakeEarly(f: Feed, size: nat, frames: seq<bytes>, m: nat)
    requires EpochInv(f, frames) && m < |frames| && |f.out| <= m && Tolerable(|f.out|, size, m)
    ensures var f' := Take(f, size, WireNumber(m), frames[m]);
            EpochInv(f', frames) && forall i: nat :: Taken(f', i) <==> Taken(f, i) || i == m
  {
    var n := |f.out|;
    EarlyVerdict(f.buf, n, size, m);
    if WireNumber(m) in f.buf {
      assert Take(f, size, WireNumber(m), frames[m]) == f;
      assert Buffered(f.buf, n, m);
    } else {
      TakeNew(f, size, frames, m);
    }
  }

  lemma TakeNew(f: Feed, size: nat, frames: seq<bytes>, m: nat)
    requires EpochInv(f, frames) && m < |frames| && |f.out| <= m && Epoch(m) == Epoch(|f.out|)
    requires Judge(f.buf, f.next, size, WireNumber(m)) == Held
    ensures var f' := Take(f, size, WireNumber(m), frames[m]);
            EpochInv(f', frames) && forall i: nat :: Taken(f', i) <==> Taken(f, i) || i == m
  {
    hide Judge, Ready, Popped, Waiting, Buffered, WireNumber, Epoch, Index;
    var n := |f.out|;
    var b := f.buf[WireNumber(m) := frames[m]];
    InsertStaysWaiting(f.buf, n, frames, m);
    DrainAcross(b, n, frames);
    var k := |Ready(b, f.next)|;
    assert frames[..n + k] == frames[..n] + frames[n..n + k];
    var f' := Take(f, size, WireNumber(m), frames[m]);
    assert f'.out == frames[..n + k] && |f'.out| == n + k;
    forall i: nat ensures Taken(f', i) <==> Taken(f, i) || i == m {
      if n <= i { assert Buffered(b, n, i) <==> Buffered(f.buf, n, i) || i == m; }
    }
  }

  lemma TakeTolerable(f: Feed, size: nat, frames: seq<bytes>, m: nat)
    requires EpochInv(f, frames) && m < |frames| && Tolerable(|f.out|, size, m)
    ensures var f' := Take(f, size, WireNumber(m), frames[m]);
            EpochInv(f', frames) && forall i: nat :: Taken(f', i) <==> Taken(f, i) || i == m
  {
    if m < |f.out| {
      LateCopyNotHeld(f.buf, size, |f.out|, m);
    } else {
      TakeEarly(f, size, frames, m);
    }
  }

  /** Before a frame arrives, so have all frames of earlier epochs. */
  ghost predicate EpochsInOrder(arrivals: seq<nat>) {
    forall p, j: nat :: 0 <= p < |arrivals| && Epoch(j) < Epoch(arrivals[p]) ==> j in arrivals[..p]
  }

  /** No arrival is so late that the numbers could have come round to it. */
  ghost predicate Recent(arrivals: seq<nat>, size: nat) {
    forall q, p :: 0 <= q < p < |arrivals| ==> arrivals[q] - arrivals[p] < TWO_32 - size
  }

  lemma RecentInit(init: seq<nat>, last: nat, size: nat)
    requires Displaced(init + [last], size) && Recent(init + [last], size)
    ensures Displaced(init, size) && Recent(init, size)
    ensures forall j: nat :: j + size <= last ==> j in init
    ensures forall j <- init :: j - last < TWO_32 - size
  {
    var arrivals := init + [last];
    assert arrivals[..|init|] == init && arrivals[|init|] == last;
    DisplacedInit(arrivals, size);
    assert forall p :: 0 <= p < |init| ==> init[p] == arrivals[p];
    forall j <- init ensures j - last < TWO_32 - size {
      var q :| 0 <= q < |init| && init[q] == j;
      assert arrivals[q] - arrivals[|init|] < TWO_32 - size;
    }
  }

  lemma InOrderInit(init: seq<nat>, last: nat)
    ensures EpochsInOrder(init + [last]) <==>
            EpochsInOrder(init) && forall j: nat :: Epoch(j) < Epoch(last) ==> j in init
  {
    var arrivals := init + [last];
    assert arrivals[..|init|] == init && arrivals[|init|] == last;
    forall p | 0 <= p < |init| ensures init[p] == arrivals[p] && init[..p] == arrivals[..p] {}
    if EpochsInOrder(arrivals) {
      forall p, j: nat | 0 <= p < |init| && Epoch(j) < Epoch(init[p]) ensures j in init[..p] {
        assert Epoch(j) < Epoch(arrivals[p]);
      }
      forall j: nat | Epoch(j) < Epoch(last) ensures j in init {
        assert j in arrivals[..|init|];
      }
    }
    if EpochsInOrder(init) && forall j: nat :: Epoch(j) < Epoch(last) ==> j in init {
      forall p, j: nat | 0 <= p < |arrivals| && Epoch(j) < Epoch(arrivals[p]) ensures j in arrivals[..p] {
        if p < |init| { assert Epoch(j) < Epoch(init[p]); }
      }
    }
  }

  /** The first missing frame decides: what comes next is tolerable. */
  lemma NextIsTolerable(f: Feed, init: seq<nat>, last: nat, size: nat)
    requires !Taken(f, |f.out|) && forall i: nat :: Taken(f, i) <==> i in init
    requires Displaced(init + [last], size) && Recent(init + [last], size) && size <= TWO_32
    requires EpochsInOrder(init + [last])
    ensures Tolerable(|f.out|, size, last)
  {
    var n := |f.out|;
    RecentInit(init, last, size);
    InOrderInit(init, last);
    if last < n {
      assert Taken(f, n - 1);
    } else {
      assert n !in init;
      assert Epoch(n) <= Epoch(last);
    }
  }

  /** However many frames there are, while they arrive displaced by less than the buffer's size, early
      in no epoch, and late by less than a round of the numbers, the buffer has taken exactly what has
      arrived, and its output is exactly the frames before the first missing one. */
  lemma {:induction false} TakenIsArrived(frames: seq<bytes>, size: nat, arrivals: seq<nat>)
    requires size <= TWO_32 && Indices(frames, arrivals)
    requires Displaced(arrivals, size) && Recent(arrivals, size) && EpochsInOrder(arrivals)
    ensures var f := FeedAll(frames, size, arrivals);
            && EpochInv(f, frames) && !Taken(f, |f.out|)
            && forall i: nat :: Taken(f, i) <==> i in arrivals
  {
    if arrivals != [] {
      var init, last := arrivals[..|arrivals| - 1], arrivals[|arrivals| - 1];
      assert arrivals == init + [last];
      RecentInit(init, last, size);
      InOrderInit(init, last);
      TakenIsArrived(frames, size, init);
      var f := FeedAll(frames, size, init);
      NextIsTolerable(f, init, last, size);
      TakeTolerable(f, size, frames, last);
      NextIsMissing(FeedAll(frames, size, arrivals), frames);
    }
  }

  lemma NextIsMissing(f: Feed, frames: seq<bytes>)
    requires EpochInv(f, frames)
    ensures !Taken(f, |f.out|)
  {
  }

  /** Once every frame has arrived, the output is all of them in order, past every wrap. */
  lemma AllFramesInOrderForever(frames: seq<bytes>, size: nat, arrivals: seq<nat>)
    requires size <= TWO_32 && Indices(frames, arrivals)
    requires Displaced(arrivals, size) && Recent(arrivals, size) && EpochsInOrder(arrivals)
    ensures FeedAll(frames, size, arrivals).out <= frames
    ensures (forall i: nat :: i < |frames| ==> i in arrivals) ==> FeedAll(frames, size, arrivals).out == frames
  {
    TakenIsArrived(frames, size, arrivals);
    assert frames[..|frames|] == frames;
  }

  /** The frame that arrives at position `p` is buffered or delivered then. */
  ghost predicate TakenAt(frames: seq<bytes>, size: nat, arrivals: seq<nat>, p: nat)
    requires Indices(frames, arrivals) && p < |arrivals|
  {
    Taken(FeedAll(frames, size, arrivals[..p + 1]), arrivals[p])
  }

  /** Every frame is buffered or delivered as soon as it has arrived. */
  ghost predicate NoneDropped(frames: seq<bytes>, size: nat, arrivals: seq<nat>)
    requires Indices(frames, arrivals)
  {
    forall p :: 0 <= p < |arrivals| ==> TakenAt(frames, size, arrivals, p)
  }

  lemma TakenAtInit(frames: seq<bytes>, size: nat, init: seq<nat>, last: nat, p: nat)
    requires Indices(frames, init) && Indices(frames, init + [last]) && p < |init|
    ensures TakenAt(frames, size, init + [last], p) <==> TakenAt(frames, size, init, p)
  {
    assert (init + [last])[..p + 1] == init[..p + 1];
  }

  lemma NoneDroppedInit(frames: seq<bytes>, size: nat, init: seq<nat>, last: nat)
    requires Indices(frames, init) && Indices(frames, init + [last])
    ensures NoneDropped(frames, size, init + [last]) <==>
            NoneDropped(frames, size, init) && Taken(FeedAll(frames, size, init + [last]), last)
  {
    var arrivals := init + [last];
    assert arrivals[..|init| + 1] == arrivals;
    assert TakenAt(frames, size, arrivals, |init|) <==> Taken(FeedAll(frames, size, arrivals), last);
    forall p | 0 <= p < |init| ensures TakenAt(frames, size, arrivals, p) <==> TakenAt(frames, size, init, p) {
      TakenAtInit(frames, size, init, last, p);
    }
    hide TakenAt, FeedAll, Taken;
  }

  /** A frame ahead of an unfinished epoch is dropped as a duplicate. */
  lemma AheadIsDropped(f: Feed, size: nat, frames: seq<bytes>, m: nat)
    requires EpochInv(f, frames) && m < |frames| && size <= TWO_32
    requires |f.out| <= m < |f.out| + size && Epoch(m) != Epoch(|f.out|)
    ensures !Taken(Take(f, size, WireNumber(m), frames[m]), m)
  {
    var n := |f.out|;
    assert Epoch(n) < Epoch(m);
    assert n == Epoch(n) * TWO_32 + WireNumber(n) && m == Epoch(m) * TWO_32 + WireNumber(m);
    assert WireNumber(m) < WireNumber(n);
  }

  lemma TakenInEpoch(f: Feed, size: nat, frames: seq<bytes>, init: seq<nat>, last: nat, j: nat)
    requires EpochInv(f, frames) && !Taken(f, |f.out|) && forall i: nat :: Taken(f, i) <==> i in init
    requires last < |frames| && size <= TWO_32 && forall i: nat :: i + size <= last ==> i in init
    requires Epoch(j) < Epoch(last) && j !in init
    ensures !Taken(Take(f, size, WireNumber(last), frames[last]), last)
  {
    var n := |f.out|;
    assert !Taken(f, j) && n <= j;
    assert n !in init && Epoch(n) <= Epoch(j);
    AheadIsDropped(f, size, frames, last);
  }

  /** No frame is dropped, in any such order, if and only if each comes after all frames of the earlier
      rounds of the numbers. */
  lemma {:induction false} NoneDroppedExactly(frames: seq<bytes>, size: nat, arrivals: seq<nat>)
    requires size <= TWO_32 && Indices(frames, arrivals) && Displaced(arrivals, size) && Recent(arrivals, size)
    ensures NoneDropped(frames, size, arrivals) <==> EpochsInOrder(arrivals)
  {
    if arrivals != [] {
      var init, last := arrivals[..|arrivals| - 1], arrivals[|arrivals| - 1];
      assert arrivals == init + [last];
      RecentInit(init, last, size);
      InOrderInit(init, last);
      NoneDroppedInit(frames, size, init, last);
      NoneDroppedExactly(frames, size, init);
      hide NoneDropped, EpochsInOrder, Displaced, Recent;
      if EpochsInOrder(arrivals) {
        TakenIsArrived(frames, size, arrivals);
      } else if EpochsInOrder(init) {
        TakenIsArrived(frames, size, init);
        var j: nat :| Epoch(j) < Epoch(last) && j !in init;
        TakenInEpoch(FeedAll(frames, size, init), size, frames, init, last, j);
      }
    }
  }
}
