/** Data frames: a four-byte big-endian sequence number followed by the payload (internal/tunnel/protocol.go). */
module Frames {
  import opened Bytes

  const HEADER_SIZE := 4
  const MAX_PAYLOAD := 64 * 1024
  const REORDER_SIZE := 64
  const WINDOW := 256 * 1024

  datatype DecodeResult = Decoded(number: uint32, payload: bytes) | TooShort

  function Header(n: uint32): (h: bytes)
    ensures |h| == HEADER_SIZE
  {
    [n / 0x100_0000, n / 0x1_0000 % 0x100, n / 0x100 % 0x100, n % 0x100]
  }

  function Number(h: bytes): uint32
    requires |h| == HEADER_SIZE
  {
    var (a: int, b: int, c: int, d: int) := (h[0], h[1], h[2], h[3]);
    a * 0x100_0000 + b * 0x1_0000 + c * 0x100 + d
  }

  function Encode(n: uint32, payload: bytes): bytes {
    Header(n) + payload
  }

  function Decode(frame: bytes): DecodeResult {
    if |frame| < HEADER_SIZE then TooShort
    else Decoded(Number(frame[..HEADER_SIZE]), frame[HEADER_SIZE..])
  }

  lemma NumberOfHeader(n: uint32)
    ensures Number(Header(n)) == n
  {
    var q1, q2, q3 := n / 0x100, n / 0x1_0000, n / 0x100_0000;
    assert q2 == q1 / 0x100 && q3 == q2 / 0x100;
  }

  lemma HeaderOfNumber(h: bytes)
    requires |h| == HEADER_SIZE
    ensures Header(Number(h)) == h
  {
    var n := Number(h);
    var (a: int, b: int, c: int) := (h[0], h[1], h[2]);
    assert n / 0x100 == a * 0x1_0000 + b * 0x100 + c;
    assert n / 0x1_0000 == a * 0x100 + b;
  }

  /** What was encoded is what is decoded. */
  lemma DecodeEncode(n: uint32, payload: bytes)
    ensures Decode(Encode(n, payload)) == Decoded(n, payload)
  {
    var frame := Encode(n, payload);
    NumberOfHeader(n);
    assert frame[..HEADER_SIZE] == Header(n) && frame[HEADER_SIZE..] == payload;
  }

  /** A frame decodes exactly when it is the encoding of what it decodes to: nothing else is accepted. */
  lemma DecodeExact(frame: bytes, n: uint32, payload: bytes)
    ensures Decode(frame) == Decoded(n, payload) <==> frame == Encode(n, payload)
  {
    if Decode(frame) == Decoded(n, payload) {
      HeaderOfNumber(frame[..HEADER_SIZE]);
      assert frame == frame[..HEADER_SIZE] + frame[HEADER_SIZE..];
    } else if frame == Encode(n, payload) {
      DecodeEncode(n, payload);
    }
  }

  /** The wire format: a frame shorter than four bytes is refused; otherwise they are the number with the
      most significant byte first, and the rest is the payload. */
  lemma WireFormat(frame: bytes)
    ensures Decode(frame).TooShort? <==> |frame| < 4
    ensures |frame| >= 4 ==>
              && Decode(frame).number ==
                 frame[0] as int * 16777216 + frame[1] as int * 65536 + frame[2] as int * 256 + frame[3] as int
              && Decode(frame).payload == frame[4..]
  {
    if |frame| >= 4 {
      var h := frame[..4];
      assert h[0] == frame[0] && h[1] == frame[1] && h[2] == frame[2] && h[3] == frame[3];
    }
  }

  /** Allocates the frame and fills it in place, header first. */
  method EncodeDataFrame(n: uint32, payload: bytes) returns (frame: array<byte>)
    ensures fresh(frame)
    ensures Decode(frame[..]) == Decoded(n, payload)
    ensures frame[..] == Encode(n, payload)
  {
    frame := new byte[HEADER_SIZE + |payload|];
    frame[0] := n / 0x100_0000;
    frame[1] := n / 0x1_0000 % 0x100;
    frame[2] := n / 0x100 % 0x100;
    frame[3] := n % 0x100;
    for i := 0 to |payload|
      invariant frame[..HEADER_SIZE] == Header(n)
      invariant frame[HEADER_SIZE..HEADER_SIZE + i] == payload[..i]
    {
      frame[HEADER_SIZE + i] := payload[i];
    }
    assert frame[..] == frame[..HEADER_SIZE] + frame[HEADER_SIZE..];
    DecodeEncode(n, payload);
  }
}
