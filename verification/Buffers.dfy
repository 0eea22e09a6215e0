/** The two loops the cipher modes run over byte buffers. */
module Buffers {
  /** Copies src over the bytes of dst from at on (memcpy, or a block function
      writing its result in the middle of a buffer). */
  method CopyInto(src: seq<bv8>, dst: array<bv8>, at: nat)
    requires at + |src| <= dst.Length
    modifies dst
    ensures dst[..] == old(dst[..at]) + src + old(dst[at + |src|..])
  {
    for j := 0 to |src|
      invariant dst[..at] == old(dst[..at]) && dst[at..at + j] == src[..j]
      invariant dst[at + j..] == old(dst[at + j..])
    {
      dst[at + j] := src[j];
      assert dst[at..at + j + 1] == dst[at..at + j] + [src[j]];
    }
    assert dst[..] == dst[..at] + dst[at..at + |src|] + dst[at + |src|..];
  }

  /** Drops the first byte of the buffer and appends x. */
  method ShiftIn(buffer: array<bv8>, x: bv8)
    requires buffer.Length > 0
    modifies buffer
    ensures buffer[..] == old(buffer[1..]) + [x]
  {
    for j := 0 to buffer.Length - 1
      invariant forall k :: 0 <= k < j ==> buffer[k] == old(buffer[k + 1])
      invariant forall k :: j <= k < buffer.Length ==> buffer[k] == old(buffer[k])
    {
      buffer[j] := buffer[j + 1];
    }
    buffer[buffer.Length - 1] := x;
  }
}
