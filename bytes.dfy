/** Octets and the C 16-bit integer conversions shared by the producer and the consumer. */
module Bytes {

  /** An octet, as `uint8_t` or the value `fputc`/`fgetc` passes for a byte. */
  type byte = x: int | 0 <= x < 256

  /** The values an `int16_t` can hold. */
  predicate IsS16(v: int) {
    -0x8000 <= v < 0x8000
  }

  /** The value an integer becomes when it is converted to `int16_t` (two's complement wrap-around). */
  function ToS16(v: int): (r: int)
    ensures IsS16(r)
    ensures (v - r) % 0x1_0000 == 0
    ensures IsS16(v) ==> r == v
  {
    var m := v % 0x1_0000;
    if m < 0x8000 then m else m - 0x1_0000
  }

  /** The value an integer becomes when it is converted to `unsigned int`: the integer taken mod 2^32. */
  function AsU32(v: int): (r: nat)
    ensures r < 0x1_0000_0000
    ensures (v - r) % 0x1_0000_0000 == 0
    ensures 0 <= v < 0x1_0000_0000 ==> r == v
  {
    v % 0x1_0000_0000
  }

  /** `memcpy`: the buffer `buf` with `piece` written over it from offset `at` on. */
  function Splice(buf: seq<byte>, at: nat, piece: seq<byte>): (r: seq<byte>)
    requires at + |piece| <= |buf|
    ensures |r| == |buf|
    ensures forall i :: 0 <= i < |buf| ==> r[i] == if at <= i < at + |piece| then piece[i - at] else buf[i]
  {
    buf[..at] + piece + buf[at + |piece|..]
  }

  /** `memcpy (dst + at, src + from, n)`, one byte at a time. */
  method CopyBytes(dst: array<byte>, at: nat, src: seq<byte>, from: nat, n: nat)
    requires at + n <= dst.Length && from + n <= |src|
    modifies dst
    ensures dst[..] == Splice(old(dst[..]), at, src[from..from + n])
  {
    var i := 0;
    while i < n
      invariant 0 <= i <= n
      invariant dst[..] == Splice(old(dst[..]), at, src[from..from + i])
    {
      dst[at + i] := src[from + i];
      i := i + 1;
    }
  }
}
