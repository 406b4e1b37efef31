/** When the receiving side acknowledges: the consumer loops of internal/tunnel/session_tcp.go and
    session_shell.go, and `sessionAckState` with `writeSessionData` of internal/client/client.go. */
module Acks {
  import opened Bytes
  import opened Frames

  const INTERVAL := WINDOW / 4

  /** Bytes consumed, and the last total that was acknowledged. */
  datatype Tally = Tally(total: nat, last: nat)

  ghost predicate Current(t: Tally) {
    t.last <= t.total < t.last + INTERVAL
  }

  predicate Due(t: Tally, n: nat) {
    t.total + n >= t.last + INTERVAL
  }

  function Count(t: Tally, n: nat): Tally {
    Tally(t.total + n, if Due(t, n) then t.total + n else t.last)
  }

  function CountAll(t: Tally, sizes: seq<nat>): Tally {
    if sizes == [] then t
    else Count(CountAll(t, sizes[..|sizes| - 1]), sizes[|sizes| - 1])
  }

  /** The acks sent for a list of payload sizes. */
  function AckTrace(t: Tally, sizes: seq<nat>): seq<nat> {
    if sizes == [] then []
    else
      var before := CountAll(t, sizes[..|sizes| - 1]);
      var n := sizes[|sizes| - 1];
      AckTrace(t, sizes[..|sizes| - 1]) + if Due(before, n) then [before.total + n] else []
  }

  function Sum(sizes: seq<nat>): nat {
    if sizes == [] then 0 else Sum(sizes[..|sizes| - 1]) + sizes[|sizes| - 1]
  }

  const FRESH := Tally(0, 0)

  /** The running total is exact, and after every payload less than one interval is unacknowledged. */
  lemma {:induction false} RemainderBelowInterval(sizes: seq<nat>)
    ensures var t := CountAll(FRESH, sizes); var acks := AckTrace(FRESH, sizes);
            && t.total == Sum(sizes) && t.last <= t.total < t.last + 65536
            && t.last == (if acks == [] then 0 else acks[|acks| - 1])
  {
    if sizes != [] {
      RemainderBelowInterval(sizes[..|sizes| - 1]);
    }
  }

  /** Each ack is the exact total after some payload. */
  lemma {:induction false} AcksAreTotals(sizes: seq<nat>, i: nat)
    requires i < |AckTrace(FRESH, sizes)|
    ensures exists p :: 0 <= p <= |sizes| && AckTrace(FRESH, sizes)[i] == Sum(sizes[..p])
  {
    var init := sizes[..|sizes| - 1];
    if i < |AckTrace(FRESH, init)| {
      AcksAreTotals(init, i);
      var p :| 0 <= p <= |init| && AckTrace(FRESH, init)[i] == Sum(init[..p]);
      assert sizes[..p] == init[..p];
    } else {
      RemainderBelowInterval(init);
      assert sizes[..|sizes|] == sizes;
    }
  }

  /** Acks strictly increase, at least one interval apart, so there is at most one per interval. */
  lemma {:induction false} AckCadence(sizes: seq<nat>)
    ensures var acks := AckTrace(FRESH, sizes);
            && (forall i, j :: 0 <= i < j < |acks| ==> acks[i] + 65536 <= acks[j])
            && |acks| * INTERVAL <= CountAll(FRESH, sizes).last
  {
    if sizes != [] {
      var init := sizes[..|sizes| - 1];
      AckCadence(init);
      RemainderBelowInterval(init);
      var before, acks := AckTrace(FRESH, init), AckTrace(FRESH, sizes);
      var t, n := CountAll(FRESH, init), sizes[|sizes| - 1];
      assert acks == before + if Due(t, n) then [t.total + n] else [];
      assert CountAll(FRESH, sizes) == Count(t, n) && INTERVAL == 65536;
      hide AckTrace, CountAll;
      if Due(t, n) {
        assert acks[..|before|] == before && acks[|before|] >= t.last + 65536;
      }
    }
  }

  lemma AckCount(sizes: seq<nat>)
    ensures |AckTrace(FRESH, sizes)| <= Sum(sizes) / 65536
  {
    hide AckTrace, CountAll, Sum;
    AckCadence(sizes);
    RemainderBelowInterval(sizes);
    var count, total := |AckTrace(FRESH, sizes)|, Sum(sizes);
    assert count * INTERVAL <= total;
  }

  /** Empty payloads change nothing, so skipping them (as the client does) gives the same acks. */
  lemma EmptyPayloadSilent(t: Tally)
    requires Current(t)
    ensures Count(t, 0) == t && !Due(t, 0)
  {
  }

  function Sizes(payloads: seq<bytes>): seq<nat> {
    seq(|payloads|, i requires 0 <= i < |payloads| => |payloads[i]|)
  }

  /** Acks travel as uint64. */
  function OnWire(acks: seq<nat>): seq<uint64> {
    seq(|acks|, i requires 0 <= i < |acks| => acks[i] % TWO_64)
  }

  /** Below 2^64 bytes in all, the acks on the wire are the true totals. */
  lemma OnWireIsTrue(sizes: seq<nat>)
    requires Sum(sizes) < TWO_64
    ensures OnWire(AckTrace(FRESH, sizes)) == AckTrace(FRESH, sizes)
  {
    var acks := AckTrace(FRESH, sizes);
    RemainderBelowInterval(sizes);
    AckCadence(sizes);
    forall i | 0 <= i < |acks| ensures acks[i] < TWO_64 {
      assert acks[i] <= acks[|acks| - 1];
    }
  }

  lemma {:induction false} CountAllCurrent(t: Tally, sizes: seq<nat>)
    requires Current(t)
    ensures Current(CountAll(t, sizes))
  {
    if sizes != [] {
      CountAllCurrent(t, sizes[..|sizes| - 1]);
    }
  }

  /** The wrapping counters see the true distance, also past 2^64 bytes. */
  lemma WrappedDistance(total: nat, last: nat)
    requires last <= total < last + TWO_64
    ensures (total % TWO_64 - last % TWO_64) % TWO_64 == total - last
  {
    var q, q' := total / TWO_64, last / TWO_64;
    assert total == q * TWO_64 + total % TWO_64 && last == q' * TWO_64 + last % TWO_64;
    assert q == q' || q == q' + 1;
  }

  /** Counting one payload with wrapping counters decides as counting it without. */
  lemma WrappedTally(t: Tally, n: nat, total: uint64, last: uint64)
    requires Current(t) && n < MAX_SLICE && total == t.total % TWO_64 && last == t.last % TWO_64
    ensures (total + n) % TWO_64 == Count(t, n).total % TWO_64
    ensures ((total + n) % TWO_64 - last) % TWO_64 >= INTERVAL <==> Due(t, n)
    ensures Current(Count(t, n))
  {
    WrappedAdd64(t.total, n);
    WrappedDistance(t.total + n, t.last);
  }

  /** A Go slice is shorter than 2^63 bytes. */
  const MAX_SLICE: int := 0x8000_0000_0000_0000

  class SessionAckState {
    var total: uint64
    var last: uint64
    const interval: uint64
    ghost var tally: Tally

    ghost predicate Valid()
      reads this
    {
      interval == INTERVAL && Current(tally) && total == tally.total % TWO_64 && last == tally.last % TWO_64
    }

    constructor ()
      ensures Valid() && tally == FRESH
    {
      total, last, interval := 0, 0, INTERVAL;
      tally := FRESH;
    }

    method Record(n: nat) returns (ackBytes: uint64, due: bool)
      requires Valid() && n < MAX_SLICE
      modifies this`total, this`last, this`tally
      ensures Valid() && tally == Count(old(tally), n)
      ensures due <==> Due(old(tally), n)
      ensures due ==> ackBytes == tally.total % TWO_64
    {
      WrappedTally(tally, n, total, last);
      total := (total + n) % TWO_64;
      tally := Count(tally, n);
      if (total - last) % TWO_64 < interval {
        return 0, false;
      }
      last := total;
      return total, true;
    }
  }

  lemma TraceSnoc(payloads: seq<bytes>, p: nat)
    requires p < |payloads|
    ensures Sizes(payloads[..p + 1]) == Sizes(payloads[..p]) + [|payloads[p]|]
    ensures var before := CountAll(FRESH, Sizes(payloads[..p]));
            && Current(before)
            && CountAll(FRESH, Sizes(payloads[..p + 1])) == Count(before, |payloads[p]|)
            && OnWire(AckTrace(FRESH, Sizes(payloads[..p + 1]))) ==
               OnWire(AckTrace(FRESH, Sizes(payloads[..p]))) +
               if Due(before, |payloads[p]|) then [(before.total + |payloads[p]|) % TWO_64] else []
  {
    var sizes := Sizes(payloads[..p + 1]);
    assert sizes == Sizes(payloads[..p]) + [|payloads[p]|];
    assert sizes[..|sizes| - 1] == Sizes(payloads[..p]);
    CountAllCurrent(FRESH, Sizes(payloads[..p]));
  }

  lemma NothingConsumed()
    ensures Sizes([]) == [] && AckTrace(FRESH, []) == [] && CountAll(FRESH, []) == FRESH
  {
  }

  /** The TCP and the shell loop: write each payload out, and acknowledge the running total once an
      interval has passed. `broken` is the index of the first write that fails, if any. */
  method WriteToConn(payloads: seq<bytes>, broken: nat) returns (acks: seq<uint64>, written: nat)
    requires forall i :: 0 <= i < |payloads| ==> |payloads[i]| < MAX_SLICE
    ensures written == if broken < |payloads| then broken else |payloads|
    ensures acks == OnWire(AckTrace(FRESH, Sizes(payloads[..written])))
  {
    var totalReceived: uint64 := 0;
    var lastAck: uint64 := 0;
    acks, written := [], 0;
    ghost var t := FRESH;
    while written < |payloads|
      invariant written <= |payloads| && written <= broken
      invariant t == CountAll(FRESH, Sizes(payloads[..written])) && Current(t)
      invariant totalReceived == t.total % TWO_64 && lastAck == t.last % TWO_64
      invariant acks == OnWire(AckTrace(FRESH, Sizes(payloads[..written])))
    {
      if written == broken {
        return;
      }
      var data := payloads[written];
      TraceSnoc(payloads, written);
      WrappedTally(t, |data|, totalReceived, lastAck);
      t := Count(t, |data|);
      totalReceived := (totalReceived + |data|) % TWO_64;
      if (totalReceived - lastAck) % TWO_64 >= INTERVAL {
        lastAck := totalReceived;
        acks := acks + [totalReceived];
      }
      written := written + 1;
    }
  }

  /** The client's loop over `writeSessionData` sends exactly the same acks. `refused` is the index of
      the first ack that cannot be sent, if any: it is the last one tried, and the loop ends with it. */
  method WriteSessionData(payloads: seq<bytes>, broken: nat, refused: nat) returns (acks: seq<uint64>, written: nat)
    requires forall i :: 0 <= i < |payloads| ==> |payloads[i]| < MAX_SLICE
    ensures written <= |payloads|
    ensures written < |payloads| ==> |acks| == refused + 1 || (broken <= written && payloads[written] != [])
    ensures acks == OnWire(AckTrace(FRESH, Sizes(payloads[..written])))
    ensures forall i :: broken <= i < written ==> payloads[i] == []
    ensures written > 0 ==> |AckTrace(FRESH, Sizes(payloads[..written - 1]))| <= refused
  {
    hide AckTrace, CountAll, Sizes;
    var state := new SessionAckState();
    acks, written := [], 0;
    assert Sizes(payloads[..0]) == [] && AckTrace(FRESH, []) == [] && CountAll(FRESH, []) == FRESH by {
      NothingConsumed();
    }
    while written < |payloads|
      invariant written <= |payloads| && |acks| <= refused
      invariant forall i :: broken <= i < written ==> payloads[i] == []
      invariant written > 0 ==> |AckTrace(FRESH, Sizes(payloads[..written - 1]))| <= refused
      invariant fresh(state) && state.Valid() && state.tally == CountAll(FRESH, Sizes(payloads[..written]))
      invariant acks == OnWire(AckTrace(FRESH, Sizes(payloads[..written])))
    {
      TraceSnoc(payloads, written);
      if payloads[written] == [] {
        EmptyPayloadSilent(state.tally);
      } else if broken <= written {
        return;
      } else {
        var ackBytes, due := state.Record(|payloads[written]|);
        if due {
          acks := acks + [ackBytes];
          if |acks| > refused {
            return acks, written + 1;
          }
        }
      }
      written := written + 1;
    }
  }
}
