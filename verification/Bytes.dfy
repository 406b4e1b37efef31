/** Bytes, Go's fixed-width counters, and flattening a list of payloads into one byte stream. */
module Bytes {
  const TWO_32: int := 0x1_0000_0000
  const TWO_64: int := 0x1_0000_0000_0000_0000

  type byte = x: int | 0 <= x < 256
  type bytes = seq<byte>
  type uint32 = x: int | 0 <= x < TWO_32
  type uint64 = x: int | 0 <= x < TWO_64

  datatype Option<+T> = None | Some(value: T)

  function Flatten(parts: seq<bytes>): bytes {
    if parts == [] then [] else parts[0] + Flatten(parts[1..])
  }

  lemma {:induction false} FlattenConcat(a: seq<bytes>, b: seq<bytes>)
    ensures Flatten(a + b) == Flatten(a) + Flatten(b)
  {
    if a == [] {
      assert a + b == b;
    } else {
      assert (a + b)[0] == a[0] && (a + b)[1..] == a[1..] + b;
      FlattenConcat(a[1..], b);
    }
  }

  lemma FlattenSnoc(a: seq<bytes>, x: bytes)
    ensures Flatten(a + [x]) == Flatten(a) + x
  {
    FlattenConcat(a, [x]);
    assert Flatten([x]) == x + Flatten([]);
  }

  /** Cutting a list of payloads cuts the stream: a shorter list flattens to a prefix. */
  lemma FlattenTake(a: seq<bytes>, n: nat)
    requires n <= |a|
    ensures Flatten(a[..n]) <= Flatten(a)
    ensures n < |a| ==> Flatten(a[..n + 1]) == Flatten(a[..n]) + a[n]
  {
    assert a == a[..n] + a[n..];
    FlattenConcat(a[..n], a[n..]);
    if n < |a| {
      assert a[..n + 1] == a[..n] + [a[n]];
      FlattenSnoc(a[..n], a[n]);
    }
  }

  lemma WrappedAdd32(a: nat, n: nat)
    ensures (a % TWO_32 + n) % TWO_32 == (a + n) % TWO_32
  {
    assert a == a / TWO_32 * TWO_32 + a % TWO_32;
  }

  lemma WrappedAdd64(a: nat, n: nat)
    ensures (a % TWO_64 + n) % TWO_64 == (a + n) % TWO_64
  {
    assert a == a / TWO_64 * TWO_64 + a % TWO_64;
  }
}
