/** Cutting a byte stream into numbered frames under the credit window
    (`SequenceWriter` in internal/tunnel/session.go). */
module Writer {
  import opened Bytes
  import opened Frames
  import opened Credit

  /** The next payload to cut off. */
  function Chunk(data: bytes): bytes {
    if |data| > MAX_PAYLOAD then data[..MAX_PAYLOAD] else data
  }

  function Chunks(data: bytes): seq<bytes> {
    if data == [] then [] else [Chunk(data)] + Chunks(data[|Chunk(data)|..])
  }

  /** The chunks are the data, in order; none is empty or too long, and only the last may be short. */
  lemma {:induction false} ChunksPartition(data: bytes)
    ensures Flatten(Chunks(data)) == data
    ensures forall i :: 0 <= i < |Chunks(data)| ==> 0 < |Chunks(data)[i]| <= 65536
    ensures forall i :: 0 <= i < |Chunks(data)| - 1 ==> |Chunks(data)[i]| == 65536
  {
    if data != [] {
      var rest := data[|Chunk(data)|..];
      ChunksPartition(rest);
      assert data == Chunk(data) + rest;
      assert Chunks(data)[1..] == Chunks(rest);
      assert |data| <= MAX_PAYLOAD ==> rest == [];
    }
  }

  lemma {:induction false} ChunkCount(data: bytes)
    ensures |Chunks(data)| == (|data| + MAX_PAYLOAD - 1) / MAX_PAYLOAD
  {
    if data != [] {
      ChunkCount(data[|Chunk(data)|..]);
    }
  }

  /** The frames of consecutive payloads, numbered modulo 2^32 from `first` on. */
  function Framed(first: uint32, payloads: seq<bytes>): seq<bytes> {
    seq(|payloads|, i requires 0 <= i < |payloads| => Encode((first + i) % TWO_32, payloads[i]))
  }

  /** Decoding what was published gives back the payloads and their consecutive numbers. */
  lemma FramedDecodes(first: uint32, payloads: seq<bytes>, i: nat)
    requires i < |payloads|
    ensures Decode(Framed(first, payloads)[i]) == Decoded((first + i) % TWO_32, payloads[i])
  {
    DecodeEncode((first + i) % TWO_32, payloads[i]);
  }

  lemma {:induction false} AfterAcksBounds(sent: uint64, acked: uint64, acks: seq<uint64>)
    ensures acked <= AfterAcks(sent, acked, acks)
    ensures acked <= sent ==> AfterAcks(sent, acked, acks) <= sent
  {
    if acks != [] {
      AfterAcksBounds(sent, acked, acks[..|acks| - 1]);
    }
  }

  /** One turn of the write loop, seen on the list of chunks. */
  lemma NextChunk(data: bytes, count: nat, rest: bytes, chunk: bytes)
    requires count <= |Chunks(data)| && Chunks(rest) == Chunks(data)[count..] && rest != []
    requires chunk == Chunk(rest)
    ensures count < |Chunks(data)| && chunk == Chunks(data)[count]
    ensures Chunks(rest[|chunk|..]) == Chunks(data)[count + 1..]
    ensures |Flatten(Chunks(data)[..count + 1])| == |Flatten(Chunks(data)[..count])| + |chunk| <= |data|
  {
    assert Chunks(rest)[1..] == Chunks(data)[count + 1..];
    FlattenTake(Chunks(data), count);
    FlattenTake(Chunks(data), count + 1);
    ChunksPartition(data);
  }

  lemma ChunkIs(rest: bytes, chunk: bytes)
    requires rest != [] && chunk == if |rest| > MAX_PAYLOAD then rest[..MAX_PAYLOAD] else rest
    ensures chunk == Chunk(rest) && 0 < |chunk| <= MAX_PAYLOAD
  {
  }

  lemma FramedSnoc(first: uint32, payloads: seq<bytes>, count: nat)
    requires count < |payloads|
    ensures Framed(first, payloads[..count + 1]) ==
            Framed(first, payloads[..count]) + [Encode((first + count) % TWO_32, payloads[count])]
  {
  }

  /** All of the next `n` bytes fit the window without any further ack. */
  predicate Room(sent: uint64, acked: uint64, window: uint64, n: nat) {
    acked <= sent && sent - acked + n <= window && sent + n < TWO_64
  }

  lemma RoomAdmits(sent: uint64, acked: uint64, window: uint64, n: nat, size: nat)
    requires size <= n && size < TWO_64
    ensures Room(sent, acked, window, n) ==> Admits(sent, acked, window, size)
  {
  }

  /** The bookkeeping is within the window, and the next `n` bytes do not wrap the counter. */
  predicate Steady(sent: uint64, acked: uint64, window: uint64, n: nat) {
    acked <= sent <= acked + window && sent + n < TWO_64 && window + MAX_PAYLOAD < TWO_64
  }

  lemma CreditTurn(sent: uint64, acked: uint64, window: uint64, n: nat, size: nat, sent': uint64, acked': uint64)
    requires size <= n && acked <= acked' && (acked <= sent ==> acked' <= sent) && sent' == (sent + size) % TWO_64
    ensures Room(sent, acked, window, n) ==> Room(sent', acked', window, n - size)
    ensures Steady(sent, acked, window, n) && sent' <= acked' + window ==> Steady(sent', acked', window, n - size)
  {
  }

  lemma StaysInCredit(sent: uint64, acked: uint64, window: uint64, n: nat)
    requires n <= MAX_PAYLOAD
    ensures Admits(sent, acked, window, n) && acked <= sent && window + MAX_PAYLOAD < TWO_64 && sent - acked <= window ==>
              sent + n <= acked + window
  {
  }

  /** After the first `k` of the acks, `n` more bytes fit the window. */
  predicate FitsAfter(sent: uint64, acked: uint64, window: uint64, acks: seq<uint64>, k: nat, n: uint64)
    requires k <= |acks|
  {
    Admits(sent, AfterAcks(sent, acked, acks[..k]), window, n)
  }

  /** What the outcome of waiting means: `used` acks were taken, no more than needed. */
  lemma WaitOutcome(sent: uint64, acked: uint64, window: uint64, n: uint64, acks: seq<uint64>, ok: bool, used: nat)
    requires used <= |acks| && (!ok ==> used == |acks|)
    requires ok <==> Admits(sent, AfterAcks(sent, acked, acks[..used]), window, n)
    requires forall k :: 0 <= k < used ==> !Admits(sent, AfterAcks(sent, acked, acks[..k]), window, n)
    ensures !ok <==> forall k :: 0 <= k <= |acks| ==> !FitsAfter(sent, acked, window, acks, k, n)
    ensures ok ==> FitsAfter(sent, acked, window, acks, used, n)
    ensures forall k :: 0 <= k < used ==> !FitsAfter(sent, acked, window, acks, k, n)
    ensures Admits(sent, acked, window, n) ==> ok
    ensures var acked' := AfterAcks(sent, acked, acks[..used]); acked <= acked' && (acked <= sent ==> acked' <= sent)
    ensures IsSuffix(acks[used..], acks)
  {
    AfterAcksBounds(sent, acked, acks[..used]);
    assert acks[..0] == [] && AfterAcks(sent, acked, []) == acked;
    assert FitsAfter(sent, acked, window, acks, used, n) <==> ok;
    if Admits(sent, acked, window, n) {
      assert FitsAfter(sent, acked, window, acks, 0, n);
    }
  }

  /** The number and the byte count after `count` of the payloads. */
  ghost predicate Accounts(first: uint32, before: uint64, payloads: seq<bytes>, count: nat, next: uint32, sent: uint64) {
    && count <= |payloads|
    && next == (first + count) % TWO_32
    && sent == (before + |Flatten(payloads[..count])|) % TWO_64
  }

  lemma AccountsStart(first: uint32, before: uint64, payloads: seq<bytes>)
    ensures Accounts(first, before, payloads, 0, first, before)
  {
  }

  lemma AccountsTurn(first: uint32, before: uint64, data: bytes, count: nat, rest: bytes, next: uint32, sent: uint64)
    requires count <= |Chunks(data)| && Chunks(rest) == Chunks(data)[count..] && rest != []
    requires Accounts(first, before, Chunks(data), count, next, sent)
    ensures Accounts(first, before, Chunks(data), count + 1, (next + 1) % TWO_32, (sent + |Chunk(rest)|) % TWO_64)
  {
    NextChunk(data, count, rest, Chunk(rest));
    WrappedAdd32(first + count, 1);
    WrappedAdd64(before + |Flatten(Chunks(data)[..count])|, |Chunk(rest)|);
  }

  predicate IsSuffix(left: seq<uint64>, all: seq<uint64>) {
    |left| <= |all| && left == all[|all| - |left|..]
  }

  lemma SuffixOfSelf(all: seq<uint64>)
    ensures IsSuffix(all, all)
  {
  }

  lemma SuffixOfSuffix(all: seq<uint64>, some: seq<uint64>, left: seq<uint64>)
    requires IsSuffix(some, all) && IsSuffix(left, some)
    ensures IsSuffix(left, all)
  {
  }

  lemma NothingToWrite(first: uint32)
    ensures Chunks([]) == [] && Flatten([]) == [] && Framed(first, []) == []
  {
  }

  class Transport {
    var published: seq<bytes>
    /** How often `Publish` was called, and which of the calls fail. */
    var calls: nat
    const failing: set<nat>

    constructor (failing: set<nat>)
      ensures this.failing == failing && published == [] && calls == 0
    {
      this.failing := failing;
      published, calls := [], 0;
    }

    method Publish(frame: bytes) returns (ok: bool)
      modifies this`published, this`calls
      ensures ok <==> old(calls) !in failing
      ensures calls == old(calls) + 1
      ensures published == old(published) + (if ok then [frame] else [])
    {
      ok := calls !in failing;
      calls := calls + 1;
      if ok {
        published := published + [frame];
      }
    }
  }

  datatype Outcome = Written | Cancelled | PublishFailed

  class SequenceWriter {
    var nextSeq: uint32
    const transport: Transport
    const fc: FlowControl

    constructor (transport: Transport, fc: FlowControl)
      ensures this.transport == transport && this.fc == fc && nextSeq == 0
    {
      this.transport, this.fc, nextSeq := transport, fc, 0;
    }

    /** The sender's own bookkeeping is within its window. */
    ghost predicate InCredit()
      reads fc
    {
      fc.ackedBytes <= fc.sentBytes <= fc.ackedBytes + fc.windowSize
    }

    /** One turn of the write loop: wait for credit, number, count, publish. It is cancelled exactly when
        none of the acks that arrive makes room; it uses no more of them than it needs, and publishes
        exactly if the transport does. */
    method WriteChunk(chunk: bytes, arriving: seq<uint64>) returns (r: Outcome, left: seq<uint64>)
      requires 0 < |chunk| <= MAX_PAYLOAD
      modifies this, transport`published, transport`calls, fc`sentBytes, fc`ackedBytes, fc`blockedNotify
      ensures r.Cancelled? <==> forall k :: 0 <= k <= |arriving| ==> !FitsAfter(old(fc.sentBytes), old(fc.ackedBytes), fc.windowSize, arriving, k, |chunk|)
      ensures IsSuffix(left, arriving)
      ensures fc.ackedBytes == AfterAcks(old(fc.sentBytes), old(fc.ackedBytes), arriving[..|arriving| - |left|])
      ensures r.Cancelled? ==> left == [] && !Admits(fc.sentBytes, fc.ackedBytes, fc.windowSize, |chunk|)
      ensures Admits(old(fc.sentBytes), old(fc.ackedBytes), fc.windowSize, |chunk|) ==> !r.Cancelled?
      ensures !r.Cancelled? ==>
                && FitsAfter(old(fc.sentBytes), old(fc.ackedBytes), fc.windowSize, arriving, |arriving| - |left|, |chunk|)
                && forall k :: 0 <= k < |arriving| - |left| ==> !FitsAfter(old(fc.sentBytes), old(fc.ackedBytes), fc.windowSize, arriving, k, |chunk|)
      ensures transport.calls == old(transport.calls) + if r.Cancelled? then 0 else 1
      ensures !r.Cancelled? ==> (r.PublishFailed? <==> old(transport.calls) in transport.failing)
      ensures transport.published == old(transport.published) +
                if r.Written? then [Encode(old(nextSeq), chunk)] else []
      ensures nextSeq == if r.Cancelled? then old(nextSeq) else (old(nextSeq) + 1) % TWO_32
      ensures fc.sentBytes == if r.Cancelled? then old(fc.sentBytes) else (old(fc.sentBytes) + |chunk|) % TWO_64
      ensures old(fc.ackedBytes) <= fc.ackedBytes
      ensures old(fc.ackedBytes) <= old(fc.sentBytes) ==> fc.ackedBytes <= old(fc.sentBytes)
      ensures old(InCredit()) && old(fc.sentBytes) + |chunk| < TWO_64 && fc.windowSize + MAX_PAYLOAD < TWO_64 ==>
                InCredit()
    {
      hide AfterAcks, Admits, FitsAfter, IsSuffix, Encode;
      ghost var sent, acked := fc.sentBytes, fc.ackedBytes;
      var ok, used := fc.WaitForWindow(|chunk|, arriving);
      left := arriving[used..];
      WaitOutcome(sent, acked, fc.windowSize, |chunk|, arriving, ok, used);
      StaysInCredit(sent, fc.ackedBytes, fc.windowSize, |chunk|);
      if !ok {
        return Cancelled, left;
      }
      var frame := EncodeDataFrame(nextSeq, chunk);
      nextSeq := (nextSeq + 1) % TWO_32;
      fc.AddSent(|chunk|);
      var published := transport.Publish(frame[..]);
      r := if published then Written else PublishFailed;
    }

    /** Writes `data`. `arriving` lists the acks that come in while the writer waits, before its
        context is cancelled, and `left` those that were not needed. `count` chunks were published; a
        failed publish leaves the counters exactly one chunk ahead of that. The call is cancelled only
        when all acks are used up and the next chunk still does not fit; so never if all of the data
        fits the window from the start. */
    method Write(data: bytes, arriving: seq<uint64>) returns (r: Outcome, count: nat, left: seq<uint64>)
      modifies this, transport`published, transport`calls, fc`sentBytes, fc`ackedBytes, fc`blockedNotify
      ensures IsSuffix(left, arriving)
      ensures r.Cancelled? ==>
                && count < |Chunks(data)| && |Chunks(data)[count]| < TWO_64
                && left == [] && !Admits(fc.sentBytes, fc.ackedBytes, fc.windowSize, |Chunks(data)[count]|)
      ensures Room(old(fc.sentBytes), old(fc.ackedBytes), fc.windowSize, |data|) ==> !r.Cancelled?
      ensures forall call <- transport.failing :: call < old(transport.calls) || old(transport.calls) + count <= call
      ensures r.PublishFailed? ==> old(transport.calls) + count in transport.failing
      ensures transport.calls == old(transport.calls) + if r.PublishFailed? then count + 1 else count
      ensures count <= |Chunks(data)| && (r.Written? <==> count == |Chunks(data)|)
      ensures transport.published == old(transport.published) + Framed(old(nextSeq), Chunks(data)[..count])
      ensures var counted := if r.PublishFailed? then count + 1 else count;
              && counted <= |Chunks(data)|
              && nextSeq == (old(nextSeq) + counted) % TWO_32
              && fc.sentBytes == (old(fc.sentBytes) + |Flatten(Chunks(data)[..counted])|) % TWO_64
      ensures old(fc.ackedBytes) <= fc.ackedBytes
      ensures old(InCredit()) && old(fc.sentBytes) + |data| < TWO_64 && fc.windowSize + MAX_PAYLOAD < TWO_64 ==>
                InCredit()
    {
      hide Chunk, Chunks, Framed, Flatten, Encode, FitsAfter, AfterAcks, Admits, Room, IsSuffix;
      NothingToWrite(nextSeq);
      AccountsStart(nextSeq, fc.sentBytes, Chunks(data));
      ghost var n0, s0, all := nextSeq, fc.sentBytes, Chunks(data);
      SuffixOfSelf(arriving);
      var rest := data;
      left := arriving;
      count := 0;
      while rest != []
        invariant count <= |all| && Chunks(rest) == all[count..] && |rest| <= |data|
        invariant transport.published == old(transport.published) + Framed(n0, all[..count])
        invariant Accounts(n0, s0, all, count, nextSeq, fc.sentBytes)
        invariant old(fc.ackedBytes) <= fc.ackedBytes
        invariant Room(s0, old(fc.ackedBytes), fc.windowSize, |data|) ==> Room(fc.sentBytes, fc.ackedBytes, fc.windowSize, |rest|)
        invariant Steady(s0, old(fc.ackedBytes), fc.windowSize, |data|) ==> Steady(fc.sentBytes, fc.ackedBytes, fc.windowSize, |rest|)
        invariant IsSuffix(left, arriving)
        invariant forall call <- transport.failing :: call < old(transport.calls) || old(transport.calls) + count <= call
        invariant transport.calls == old(transport.calls) + count
        decreases |rest|
      {
        var chunk := rest;
        if |chunk| > MAX_PAYLOAD {
          chunk := rest[..MAX_PAYLOAD];
        }
        ChunkIs(rest, chunk);
        NextChunk(data, count, rest, chunk);
        FramedSnoc(n0, all, count);
        AccountsTurn(n0, s0, data, count, rest, nextSeq, fc.sentBytes);
        ghost var sent, acked, waiting := fc.sentBytes, fc.ackedBytes, left;
        RoomAdmits(sent, acked, fc.windowSize, |rest|, |chunk|);
        r, left := WriteChunk(chunk, left);
        SuffixOfSuffix(arriving, waiting, left);
        if !r.Written? {
          return;
        }
        CreditTurn(sent, acked, fc.windowSize, |rest|, |chunk|, fc.sentBytes, fc.ackedBytes);
        rest := rest[|chunk|..];
        count := count + 1;
      }
      r := Written;
    }
  }
}
