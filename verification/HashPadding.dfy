/** The block and padding driver shared by sha2_256.cc, sha1.cc and sm3.cc, and
    its 128-byte form in sha2_512.cc.  The compression function and its state are
    parameters.  The driver reuses one block buffer that starts uninitialised. */
module HashPadding {
  import opened Arith
  import opened Bytes
  import opened BitStrings
  import opened Buffers

  // ----- the standard: pad, split, fold

  /** The zeros that bring len bytes to size - field modulo size. */
  function ZeroCount(len: nat, size: nat, field: nat): (z: nat)
    requires 0 < field < size
    ensures z < size && Due(len, z, size, field)
  {
    ZeroCountFits(len, size, field);
    (2 * size - field - len % size) % size
  }

  lemma ZeroCountFits(len: nat, size: nat, field: nat)
    requires 0 < field < size
    ensures (len + (2 * size - field - len % size) % size + field) % size == 0
  {
    var r := len % size;
    var t := 2 * size - field - r;
    assert len == size * (len / size) + r && t == size * (t / size) + t % size;
    assert len + t % size + field == size * (len / size + 2 - t / size) + 0 by {
      assert size * (len / size + 2 - t / size) == size * (len / size) + size * 2 - size * (t / size);
    }
    DivModUnique(len + t % size + field, size, len / size + 2 - t / size, 0);
  }

  /** The message, a one bit, zeros, and its bit length modulo 2^64. */
  function Pad(msg: seq<bv8>, size: nat, field: nat): (s: seq<bv8>)
    requires 0 < field < size
    ensures |s| % size == 0 && |msg| + 1 + field <= |s| < |msg| + 1 + field + size
  {
    msg + [0x80] + Zeros(ZeroCount(|msg| + 1, size, field)) + BigEndian(BitLength(|msg|), field)
  }

  // ----- the padding, bit by bit

  function Clear(n: nat): (b: seq<bool>)
    ensures |b| == n && forall i :: 0 <= i < n ==> !b[i]
  {
    seq(n, i => false)
  }

  lemma BitsOfZeros(n: nat)
    ensures Bits(Zeros(n)) == Clear(8 * n)
  {
    forall k | 0 <= k < 8 * n ensures !Bits(Zeros(n))[k] {
      ZeroHasNoBit(k % 8);
    }
  }

  lemma ZeroHasNoBit(j: nat)
    requires j < 8
    ensures !Bit(0, j)
  {}

  lemma BitsOfOne()
    ensures Bits([0x80]) == [true] + Clear(7)
  {
    forall k | 0 <= k < 8 ensures Bits([0x80])[k] == (k == 0) {
      BitOfOne(k);
    }
  }

  lemma BitOfOne(k: nat)
    requires k < 8
    ensures Bit(0x80, k) == (k == 0)
  {
    if k == 0 {} else if k == 1 {} else if k == 2 {} else if k == 3 {}
    else if k == 4 {} else if k == 5 {} else if k == 6 {} else {}
  }

  /** Section 5.1 of FIPS 180-4: the message, a one bit, the least number of zero bits
      that leaves room for the length at the end of a block, and the length. */
  lemma PaddingIsStandard(msg: seq<bv8>, size: nat, field: nat)
    requires 0 < field < size
    ensures var k := 8 * ZeroCount(|msg| + 1, size, field) + 7;
      && k < 8 * size && (8 * |msg| + 1 + k + 8 * field) % (8 * size) == 0
      && Bits(Pad(msg, size, field)) == Bits(msg) + [true] + Clear(k) + Bits(BigEndian(8 * |msg| % 0x1_0000_0000_0000_0000, field))
  {
    hide Bits, BigEndian, Clear, Zeros, ZeroCount;
    var z := ZeroCount(|msg| + 1, size, field);
    var len := BigEndian(BitLength(|msg|), field);
    BitsConcat(msg + [0x80] + Zeros(z), len);
    BitsConcat(msg + [0x80], Zeros(z));
    BitsConcat(msg, [0x80]);
    BitsOfOne();
    BitsOfZeros(z);
    ClearConcat(7, 8 * z);
    assert Bits(msg) + ([true] + Clear(7)) + Clear(8 * z) == Bits(msg) + [true] + (Clear(7) + Clear(8 * z));
    BlockOfBits(|msg| + 1 + z + field, size);
  }

  lemma ClearConcat(m: nat, n: nat)
    ensures Clear(m) + Clear(n) == Clear(m + n)
  {}

  lemma BlockOfBits(n: nat, size: nat)
    requires size > 0 && n % size == 0
    ensures 8 * n % (8 * size) == 0
  {
    assert 8 * n == 8 * size * (n / size) + 0;
    DivModUnique(8 * n, 8 * size, n / size, 0);
  }

  /** ml: the bit length in a 64-bit size_t. */
  function BitLength(len: nat): (ml: nat)
    ensures ml < TWO_64
  {
    8 * len % TWO_64
  }

  /** The length field holds the bit length, as the standard wants, exactly when
      that fits in 64 bits. */
  lemma LengthIsExactIff(len: nat, field: nat)
    requires field >= 8
    ensures FromBigEndian(BigEndian(BitLength(len), field)) == 8 * len <==> 8 * len < TWO_64
  {
    hide BigEndian, FromBigEndian, Pow256;
    BigEndianRoundTrip(BitLength(len), field);
    Pow256Grows(field);
    SmallMod(BitLength(len), Pow256(field));
  }

  lemma {:induction false} Pow256Grows(k: nat)
    requires k >= 8
    ensures Pow256(k) >= TWO_64
  {
    if k == 8 { Pow256Of8(); } else { Pow256Grows(k - 1); }
  }

  /** No two messages, of any lengths, have the same padding. */
  lemma PadInjective(a: seq<bv8>, b: seq<bv8>, size: nat, field: nat)
    requires 8 <= field < size < TWO_64 / 8
    requires Pad(a, size, field) == Pad(b, size, field)
    ensures a == b
  {
    var s := Pad(a, size, field);
    assert s[|s| - field..] == BigEndian(BitLength(|a|), field) == BigEndian(BitLength(|b|), field);
    Pow256Grows(field);
    BigEndianInjective(BitLength(|a|), BitLength(|b|), field);
    hide BigEndian, Zeros, ZeroCount, Pow256;
    if |a| <= |b| { SameBitLength(|a|, |b|, size); } else { SameBitLength(|b|, |a|, size); }
    assert a == s[..|a|] && b == s[..|b|];
  }

  lemma SameBitLength(m: nat, n: nat, size: nat)
    requires m <= n < m + size && size < TWO_64 / 8 && BitLength(m) == BitLength(n)
    ensures m == n
  {
    assert 8 * n == TWO_64 * (8 * n / TWO_64) + BitLength(n);
    assert 8 * m == TWO_64 * (8 * m / TWO_64) + BitLength(m);
  }

  /** The compression function over the whole blocks of s. */
  function Fold<S>(f: (S, seq<bv8>) -> S, h: S, s: seq<bv8>, size: nat): S
    requires size > 0
    decreases |s|
  {
    if |s| < size then h else Fold(f, f(h, s[..size]), s[size..], size)
  }

  function Hash<S>(f: (S, seq<bv8>) -> S, init: S, msg: seq<bv8>, size: nat, field: nat): S
    requires 0 < field < size
  {
    Fold(f, init, Pad(msg, size, field), size)
  }

  // ----- the driver

  lemma FoldBlock<S>(f: (S, seq<bv8>) -> S, h: S, block: seq<bv8>, rest: seq<bv8>, size: nat)
    requires |block| == size > 0
    ensures Fold(f, h, block + rest, size) == Fold(f, f(h, block), rest, size)
  {
    assert (block + rest)[..size] == block && (block + rest)[size..] == rest;
  }

  /** The bytes in the whole blocks of a message of n bytes. */
  function Whole(n: nat, size: nat): (w: nat)
    requires size > 0
    ensures w <= n && n - w == Rest(n, size)
  {
    assert n == size * (n / size) + n % size;
    n / size * size
  }

  /** The bytes after them. */
  function Rest(n: nat, size: nat): (r: nat)
    requires size > 0
    ensures r < size
  {
    n % size
  }

  /** The first loop: the whole blocks of the message. */
  method AbsorbBlocks<S>(f: (S, seq<bv8>) -> S, init: S, data: seq<bv8>, size: nat, ghost rest: seq<bv8>) returns (h: S)
    requires size > 0
    ensures Fold(f, init, data + rest, size) == Fold(f, h, data[Whole(|data|, size)..] + rest, size)
  {
    hide Fold;
    h := init;
    assert data[0..] == data;
    for i := 0 to |data| / size
      invariant i * size <= |data|
      invariant Fold(f, init, data + rest, size) == Fold(f, h, data[i * size..] + rest, size)
    {
      BlockFits(|data|, size, i);
      var block := data[i * size..i * size + size];
      assert data[i * size..] + rest == block + (data[(i + 1) * size..] + rest);
      FoldBlock(f, h, block, data[(i + 1) * size..] + rest, size);
      h := f(h, block);
    }
  }

  lemma BlockFits(len: nat, size: nat, i: nat)
    requires size > 0 && i < len / size
    ensures i * size + size == (i + 1) * size <= len
  {
    assert len == size * (len / size) + len % size;
    MulAtLeast(size, len / size - i);
    assert size * (len / size - i) == size * (len / size) - size * i;
  }

  /** Appends one byte to the buffer and compresses it when it is full. */
  method Append<S>(f: (S, seq<bv8>) -> S, h0: S, buffer: array<bv8>, len0: nat, x: bv8, ghost rest: seq<bv8>)
    returns (h: S, len: nat)
    requires len0 < buffer.Length
    modifies buffer
    ensures len == if len0 + 1 == buffer.Length then 0 else len0 + 1
    ensures Fold(f, h, buffer[..len] + rest, buffer.Length)
         == Fold(f, h0, old(buffer[..len0]) + ([x] + rest), buffer.Length)
  {
    hide Fold;
    h, len := h0, len0;
    buffer[len] := x;
    len := len + 1;
    assert buffer[..len] + rest == old(buffer[..len0]) + ([x] + rest);
    NextFull(len0, buffer.Length);
    if len % buffer.Length == 0 {
      assert buffer[..len] == buffer[..];
      FoldBlock(f, h, buffer[..], rest, buffer.Length);
      h := f(h, buffer[..]);
      len := 0;
      assert buffer[..0] + rest == rest;
    }
  }

  /** The loop that writes the zeros; z is how many are still to come. */
  method ZeroFill<S>(f: (S, seq<bv8>) -> S, h0: S, buffer: array<bv8>, len0: nat, field: nat, ghost z0: nat, ghost tail: seq<bv8>)
    returns (h: S)
    requires 0 < field < buffer.Length && len0 < buffer.Length && z0 < buffer.Length
    requires Due(len0, z0, buffer.Length, field)
    modifies buffer
    ensures Fold(f, h, buffer[..buffer.Length - field] + tail, buffer.Length)
         == Fold(f, h0, old(buffer[..len0]) + (Zeros(z0) + tail), buffer.Length)
  {
    hide Fold, Zeros, Due;
    h := h0;
    var len: nat := len0;
    ghost var z: nat := z0;
    var size := buffer.Length;
    while len % size != size - field
      invariant 0 <= len < size && 0 <= z < size && Due(len, z, size, field)
      invariant Fold(f, h, buffer[..len] + (Zeros(z) + tail), size)
             == Fold(f, h0, old(buffer[..len0]) + (Zeros(z0) + tail), size)
      decreases z
    {
      Countdown(len, z, size, field);
      ZerosStep(z, tail);
      h, len := Append(f, h, buffer, len, 0, Zeros(z - 1) + tail);
      z := z - 1;
    }
    Countdown(len, z, size, field);
    assert Zeros(z) + tail == tail;
  }

  lemma ZerosStep(z: nat, tail: seq<bv8>)
    requires z > 0
    ensures Zeros(z) + tail == [0] + (Zeros(z - 1) + tail)
  {}

  /** With len bytes in the buffer, z zeros and the length field end a block. */
  ghost predicate Due(len: nat, z: nat, size: nat, field: nat)
    requires size > 0
  {
    (len + z + field) % size == 0
  }

  /** The memcpy of the bytes after the last whole block. */
  method LoadRest(data: seq<bv8>, buffer: array<bv8>)
    requires buffer.Length > 0
    modifies buffer
    ensures buffer[..Rest(|data|, buffer.Length)] == data[Whole(|data|, buffer.Length)..]
  {
    hide Whole, Rest;
    CopyInto(data[Whole(|data|, buffer.Length)..], buffer, 0);
  }

  /** Everything before the length field: whole blocks, the rest of the message,
      the one bit and the zeros.  The bytes of buffer below size - field are then
      the start of the last block. */
  method PadMessage<S>(f: (S, seq<bv8>) -> S, init: S, data: seq<bv8>, size: nat, field: nat, buffer: array<bv8>)
    returns (h: S)
    requires 0 < field < size == buffer.Length
    modifies buffer
    ensures Hash(f, init, data, size, field)
         == Fold(f, h, buffer[..size - field] + BigEndian(BitLength(|data|), field), size)
  {
    hide Fold, BigEndian, Zeros, ZeroCount, BitLength, Due, Pad, Whole, Rest;
    ghost var tail := BigEndian(BitLength(|data|), field);
    ghost var z := ZeroCount(|data| + 1, size, field);
    ghost var rest := Zeros(z) + tail;
    PadParts(data, size, field);
    h := AbsorbBlocks(f, init, data, size, [0x80] + rest);
    LoadRest(data, buffer);
    var len := Rest(|data|, size);
    h, len := Append(f, h, buffer, len, 0x80, rest);
    FirstCount(|data|, z, size, field);
    h := ZeroFill(f, h, buffer, len, field, z, tail);
  }

  lemma PadParts(msg: seq<bv8>, size: nat, field: nat)
    requires 0 < field < size
    ensures Pad(msg, size, field)
         == msg + ([0x80] + (Zeros(ZeroCount(|msg| + 1, size, field)) + BigEndian(BitLength(|msg|), field)))
  {}

  lemma NextFull(len: nat, size: nat)
    requires len < size
    ensures (len + 1) % size == 0 <==> len + 1 == size
  {
    if len + 1 < size { SmallMod(len + 1, size); } else { DivModUnique(size, size, 1, 0); }
  }

  lemma FirstCount(n: nat, z: nat, size: nat, field: nat)
    requires size > 0 && Due(n + 1, z, size, field)
    ensures Due(if Rest(n, size) + 1 == size then 0 else Rest(n, size) + 1, z, size, field)
  {
    ModAdd(n, 1 + z + field, size);
    if n % size + 1 == size {
      ModAdd(size, z + field, size);
      DivModUnique(size, size, 1, 0);
    }
  }

  lemma ModAdd(len: nat, k: nat, size: nat)
    requires size > 0 && (len + k) % size == 0
    ensures (len % size + k) % size == 0
  {
    var q := (len + k) / size;
    assert len + k == size * q && len == size * (len / size) + len % size;
    assert len % size + k == size * (q - len / size) + 0;
    DivModUnique(len % size + k, size, q - len / size, 0);
  }

  /** The loop stops exactly when no zero is left to write. */
  lemma Countdown(len: nat, z: nat, size: nat, field: nat)
    requires 0 < field < size && len < size && z < size && Due(len, z, size, field)
    ensures len % size == size - field <==> z == 0
    ensures len % size == len
    ensures z > 0 ==> Due(if len + 1 == size then 0 else len + 1, z - 1, size, field)
  {
    var t := len + z + field;
    SmallMod(len, size);
    if z == 0 {
      OneMultiple(t, size);
    } else if len == size - field {
      DivModUnique(t, size, 1, z);
    } else if len + 1 == size {
      ModAdd(size, z - 1 + field, size);
      DivModUnique(size, size, 1, 0);
    }
  }

  lemma OneMultiple(t: nat, size: nat)
    requires 0 < t < 2 * size && t % size == 0
    ensures t == size
  {
    if t < size { SmallMod(t, size); } else { DivModUnique(t, size, 1, t - size); }
  }

  /** Byte k of ml counted from the right: ml >> 8 k, truncated. */
  function ShiftedByte(ml: nat, k: nat): bv8 {
    ToByte(ml / Pow256(k) % 256)
  }

  lemma HighBytesAreZero(ml: nat, k: nat)
    requires ml < TWO_64 && k >= 8
    ensures ShiftedByte(ml, k) == 0
  {
    hide ToByte, Pow256;
    Pow256Grows(k);
    SmallMod(ml, Pow256(k));
    ToByteZero();
  }

  lemma ToByteZero()
    ensures ToByte(0) == 0
  {}

  /** sha2 of sha2_256.cc: eight stores of the length. */
  method Sha2With64ByteBlocks<S>(f: (S, seq<bv8>) -> S, init: S, data: seq<bv8>) returns (h: S)
    ensures h == Hash(f, init, data, 64, 8)
  {
    hide Fold, BigEndian, Hash, ShiftedByte;
    var buffer := new bv8[64];
    h := PadMessage(f, init, data, 64, 8, buffer);
    ghost var front := buffer[..56];
    var ml := BitLength(|data|);
    buffer[56], buffer[57] := ShiftedByte(ml, 7), ShiftedByte(ml, 6);
    buffer[58], buffer[59] := ShiftedByte(ml, 5), ShiftedByte(ml, 4);
    buffer[60], buffer[61] := ShiftedByte(ml, 3), ShiftedByte(ml, 2);
    buffer[62], buffer[63] := ShiftedByte(ml, 1), ShiftedByte(ml, 0);
    EightBytes(ml);
    assert buffer[..] == front + BigEndian(ml, 8);
    FoldLast(f, h, buffer[..], 64);
    h := f(h, buffer[..]);
  }

  lemma FoldLast<S>(f: (S, seq<bv8>) -> S, h: S, block: seq<bv8>, size: nat)
    requires |block| == size > 0
    ensures Fold(f, h, block, size) == f(h, block)
  {
    assert block[..size] == block && block[size..] == [];
  }

  lemma BytesOfLength(ml: nat, field: nat)
    ensures forall t :: 0 <= t < field ==> BigEndian(ml, field)[t] == ShiftedByte(ml, field - 1 - t)
  {
    hide ToByte, Pow256, BigEndian;
    forall t | 0 <= t < field ensures BigEndian(ml, field)[t] == ShiftedByte(ml, field - 1 - t) {
      BigEndianAt(ml, field, t);
    }
  }

  lemma EightBytes(ml: nat)
    ensures BigEndian(ml, 8) == [ShiftedByte(ml, 7), ShiftedByte(ml, 6), ShiftedByte(ml, 5), ShiftedByte(ml, 4),
                                 ShiftedByte(ml, 3), ShiftedByte(ml, 2), ShiftedByte(ml, 1), ShiftedByte(ml, 0)]
  {
    hide BigEndian, ShiftedByte;
    BytesOfLength(ml, 8);
  }

  /** sha2 of sha2_512.cc: a loop over the sixteen length bytes that writes zero
      where the shift would exceed the 64 bits of ml. */
  method Sha2With128ByteBlocks<S>(f: (S, seq<bv8>) -> S, init: S, data: seq<bv8>) returns (h: S)
    ensures h == Hash(f, init, data, 128, 16)
  {
    hide Fold, BigEndian, Hash, ShiftedByte;
    var buffer := new bv8[128];
    h := PadMessage(f, init, data, 128, 16, buffer);
    ghost var front := buffer[..112];
    var ml := BitLength(|data|);
    BytesOfLength(ml, 16);
    var len := 112;
    while len % 128 != 0
      invariant 112 <= len <= 128
      invariant buffer[..112] == front
      invariant forall t :: 0 <= t < len - 112 ==> buffer[112 + t] == BigEndian(ml, 16)[t]
      decreases 128 - len
    {
      var shiftCount := 120 - (len - 128 + 16) * 8;
      if shiftCount >= 64 {
        HighBytesAreZero(ml, shiftCount / 8);
        buffer[len] := 0;
      } else {
        buffer[len] := ShiftedByte(ml, shiftCount / 8);
      }
      len := len + 1;
    }
    assert buffer[112..] == BigEndian(ml, 16);
    assert buffer[..] == front + BigEndian(ml, 16);
    FoldLast(f, h, buffer[..], 128);
    h := f(h, buffer[..]);
  }
}
