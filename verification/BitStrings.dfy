/** Byte buffers read and written bit by bit (setbit and getbit of the DES
    programs): bit i of a buffer is bit i % 8 of byte i / 8, counted from the
    left. */
module BitStrings {
  import opened Bytes

  function Bits(s: seq<bv8>): (b: seq<bool>)
    ensures |b| == 8 * |s|
  {
    seq(8 * |s|, k requires 0 <= k < 8 * |s| => Bit(s[k / 8], k % 8))
  }

  /** The buffer with the given bits. */
  function FromBits(b: seq<bool>): (s: seq<bv8>)
    requires |b| % 8 == 0
    ensures |s| == |b| / 8
  {
    seq(|b| / 8, i requires 0 <= i < |b| / 8 => ByteAt(b, i))
  }

  function ByteAt(b: seq<bool>, i: nat): bv8
    requires 8 * i + 8 <= |b|
  {
    Pack(b[8 * i], b[8 * i + 1], b[8 * i + 2], b[8 * i + 3], b[8 * i + 4], b[8 * i + 5], b[8 * i + 6], b[8 * i + 7])
  }

  lemma BitOfByteAt(b: seq<bool>, i: nat, j: nat)
    requires 8 * i + 8 <= |b| && j < 8
    ensures Bit(ByteAt(b, i), j) == b[8 * i + j]
  {
    hide Bit, Pack;
    BitsOfPack(b[8 * i], b[8 * i + 1], b[8 * i + 2], b[8 * i + 3], b[8 * i + 4], b[8 * i + 5], b[8 * i + 6], b[8 * i + 7]);
    if j == 0 {} else if j == 1 {} else if j == 2 {} else if j == 3 {}
    else if j == 4 {} else if j == 5 {} else if j == 6 {} else {}
  }

  lemma BitsOfFromBits(b: seq<bool>)
    requires |b| % 8 == 0
    ensures Bits(FromBits(b)) == b
  {
    hide Bit, ByteAt;
    forall k | 0 <= k < |b| ensures Bits(FromBits(b))[k] == b[k] {
      BitOfByteAt(b, k / 8, k % 8);
    }
  }

  lemma BitsAt(s: seq<bv8>, i: nat, j: nat)
    requires i < |s| && j < 8
    ensures Bits(s)[8 * i + j] == Bit(s[i], j)
  {
    assert (8 * i + j) / 8 == i && (8 * i + j) % 8 == j;
  }

  lemma BitsInjective(a: seq<bv8>, b: seq<bv8>)
    requires Bits(a) == Bits(b)
    ensures a == b
  {
    hide Bit, Bits;
    forall i | 0 <= i < |a| ensures a[i] == b[i] {
      forall j | 0 <= j < 8 ensures Bit(a[i], j) == Bit(b[i], j) {
        BitsAt(a, i, j);
        BitsAt(b, i, j);
      }
      BitsDetermine(a[i], b[i]);
    }
  }

  lemma FromBitsOfBits(s: seq<bv8>)
    ensures FromBits(Bits(s)) == s
  {
    hide Bits, FromBits;
    BitsOfFromBits(Bits(s));
    BitsInjective(FromBits(Bits(s)), s);
  }

  lemma BitsConcat(s: seq<bv8>, t: seq<bv8>)
    ensures Bits(s + t) == Bits(s) + Bits(t)
  {
    hide Bit;
  }

  // ----- writing one bit

  function MaskOf(j: nat): bv8
    requires j < 8
  {
    if j == 0 then 0x80 else if j == 1 then 0x40 else if j == 2 then 0x20 else if j == 3 then 0x10
    else if j == 4 then 0x08 else if j == 5 then 0x04 else if j == 6 then 0x02 else 0x01
  }

  function WithBit(b: bv8, j: nat, val: bool): bv8
    requires j < 8
  {
    if val then b | MaskOf(j) else b & !MaskOf(j)
  }

  lemma BitOfWithBit(b: bv8, j: nat, val: bool, k: nat)
    requires j < 8 && k < 8
    ensures Bit(WithBit(b, j, val), k) == if k == j then val else Bit(b, k)
  {
    if k == 0 {} else if k == 1 {} else if k == 2 {} else if k == 3 {}
    else if k == 4 {} else if k == 5 {} else if k == 6 {} else {}
  }

  /** setbit changes one bit of the buffer. */
  method SetBit(buffer: array<bv8>, i: nat, val: bool)
    requires i < 8 * buffer.Length
    modifies buffer
    ensures Bits(buffer[..]) == Bits(old(buffer[..]))[i := val]
  {
    hide WithBit, Bit;
    ghost var s := buffer[..];
    buffer[i / 8] := WithBit(buffer[i / 8], i % 8, val);
    ghost var t := buffer[..];
    forall k | 0 <= k < 8 * |s| ensures Bits(t)[k] == Bits(s)[i := val][k] {
      BitOfWithBit(s[i / 8], i % 8, val, k % 8);
      SameIndex(i, k);
    }
  }

  lemma SameIndex(i: nat, k: nat)
    ensures i == k <==> i / 8 == k / 8 && i % 8 == k % 8
  {}

  function GetBit(s: seq<bv8>, i: nat): bool
    requires i < 8 * |s|
  {
    Bit(s[i / 8], i % 8)
  }

  // ----- permutation tables

  /** The bits the table names, counted from one. */
  function Permute(b: seq<bool>, table: seq<nat>): (r: seq<bool>)
    requires forall i :: 0 <= i < |table| ==> 1 <= table[i] <= |b|
    ensures |r| == |table|
  {
    seq(|table|, i requires 0 <= i < |table| => b[table[i] - 1])
  }

  /** The loop that fills a buffer bit by bit from a table: every bit is written,
      so nothing of its former contents is left. */
  method PermuteInto(src: seq<bv8>, table: seq<nat>, dst: array<bv8>)
    requires |table| == 8 * dst.Length
    requires forall i :: 0 <= i < |table| ==> 1 <= table[i] <= 8 * |src|
    modifies dst
    ensures Bits(dst[..]) == Permute(Bits(src), table)
  {
    hide Bit;
    for i := 0 to |table|
      invariant forall k :: 0 <= k < i ==> Bits(dst[..])[k] == Bits(src)[table[k] - 1]
    {
      SetBit(dst, i, GetBit(src, table[i] - 1));
    }
  }

  /** The second table undoes the first. */
  ghost predicate Undoes(first: seq<nat>, second: seq<nat>) {
    && |first| == |second|
    && (forall i :: 0 <= i < |first| ==> 1 <= first[i] <= |first|)
    && (forall i :: 0 <= i < |second| ==> 1 <= second[i] <= |second| && first[second[i] - 1] == i + 1)
  }

  lemma PermuteUndone(b: seq<bool>, first: seq<nat>, second: seq<nat>)
    requires Undoes(first, second) && |b| == |first|
    ensures Permute(Permute(b, first), second) == b
  {}
}
