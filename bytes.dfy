/** Bytes, Node `Buffer.slice` and the big-endian integer reads the parsers use. */
module Bytes {

  type byte = x: int | 0 <= x < 256
  type Bytes = seq<byte>

  function Min(a: nat, b: nat): nat { if a <= b then a else b }

  /** `buf.slice(start, end)` with both ends clamped to the buffer, as Node does. */
  function Slice(b: Bytes, start: nat, end: nat): (r: Bytes)
    ensures |r| == if start <= end then Min(end, |b|) - Min(start, Min(end, |b|)) else 0
  {
    var e := Min(end, |b|);
    var s := Min(start, e);
    b[s..e]
  }

  /** `buf.slice(start)`: everything from `start` on, empty past the end. */
  function SliceFrom(b: Bytes, start: nat): (r: Bytes)
    ensures |r| == |b| - Min(start, |b|)
  {
    b[Min(start, |b|)..]
  }

  /** `readUInt16BE(0)` of a two-byte buffer. */
  function BigEndian16(b: Bytes): (n: nat)
    requires |b| == 2
    ensures n < 0x1_0000
  {
    b[0] as int * 0x100 + b[1] as int
  }

  /** `readUInt32BE(0)` of a four-byte buffer. */
  function BigEndian32(b: Bytes): (n: nat)
    requires |b| == 4
    ensures n < 0x1_0000_0000
  {
    b[0] as int * 0x100_0000 + b[1] as int * 0x1_0000 + b[2] as int * 0x100 + b[3] as int
  }

  /** The two big-endian bytes of a 16-bit length, the inverse of BigEndian16. */
  function Uint16Bytes(n: nat): (b: Bytes)
    requires n < 0x1_0000
    ensures |b| == 2
  {
    [n / 0x100, n % 0x100]
  }

  lemma BigEndian16RoundTrip(b: Bytes)
    requires |b| == 2
    ensures Uint16Bytes(BigEndian16(b)) == b
  {
  }

  lemma Uint16BytesRoundTrip(n: nat)
    requires n < 0x1_0000
    ensures BigEndian16(Uint16Bytes(n)) == n
  {
  }
}
