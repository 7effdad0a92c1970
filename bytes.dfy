/**
  Fixed-width unsigned integers and the little-endian byte order in which
  every multi-byte header field of both formats is stored.
*/
module Bytes {

  type byte = x: int | 0 <= x < 0x100
  type u16 = x: int | 0 <= x < 0x1_0000
  type u32 = x: int | 0 <= x < 0x1_0000_0000

  /** A two-byte little-endian field read out of `b` at index `at`. */
  function LE16(b: seq<byte>, at: nat): (v: u16)
    requires at + 2 <= |b|
    ensures v % 0x100 == b[at] && v / 0x100 == b[at + 1]
  {
    b[at] as int + 0x100 * (b[at + 1] as int)
  }

  /** A four-byte little-endian field read out of `b` at index `at`. */
  function LE32(b: seq<byte>, at: nat): (v: u32)
    requires at + 4 <= |b|
    ensures v % 0x1_0000 == LE16(b, at) && v / 0x1_0000 == LE16(b, at + 2)
  {
    LE16(b, at) as int + 0x1_0000 * (LE16(b, at + 2) as int)
  }

  /** The two bytes of `v`, least significant first. */
  function U16Bytes(v: u16): (b: seq<byte>)
    ensures |b| == 2 && LE16(b, 0) == v
  {
    [v % 0x100, v / 0x100]
  }

  /** The four bytes of `v`, least significant first. */
  function U32Bytes(v: u32): (b: seq<byte>)
    ensures |b| == 4 && LE32(b, 0) == v
  {
    U16Bytes(v % 0x1_0000) + U16Bytes(v / 0x1_0000)
  }

  /** Reading a 16-bit field back from its bytes gives the bytes again. */
  lemma U16BytesOfLE16(b: seq<byte>, at: nat)
    requires at + 2 <= |b|
    ensures U16Bytes(LE16(b, at)) == b[at..at + 2]
  {
  }

  lemma U32BytesOfLE32(b: seq<byte>, at: nat)
    requires at + 4 <= |b|
    ensures U32Bytes(LE32(b, at)) == b[at..at + 4]
  {
    U16BytesOfLE16(b, at);
    U16BytesOfLE16(b, at + 2);
  }

  /** The two's-complement reading of a 32-bit field (`int32_t`). */
  function ToInt32(v: u32): (i: int)
    ensures -0x8000_0000 <= i < 0x8000_0000
    ensures (i < 0) == (v >= 0x8000_0000)
    ensures (i + 0x1_0000_0000) % 0x1_0000_0000 == v
  {
    if v < 0x8000_0000 then v else v - 0x1_0000_0000
  }

  /** Unsigned 64-bit (`size_t`) subtraction, which wraps around below zero. */
  function SizeSub(a: nat, b: nat): (d: nat)
    requires a < 0x1_0000_0000_0000_0000 && b < 0x1_0000_0000_0000_0000
    ensures d < 0x1_0000_0000_0000_0000
    ensures a >= b ==> d == a - b
    ensures a < b ==> d == 0x1_0000_0000_0000_0000 + a - b
  {
    (a - b) % 0x1_0000_0000_0000_0000
  }
}
