/** AES-GCM (aes_gcm.cc): multiplication in GF(2^128), GHASH, counter mode and
    the authentication tag.  A 16-byte block stands for the polynomial whose
    coefficient of x^k is bit k of the block. */
module Gcm {
  import opened Bytes
  import opened Gf2Poly

  const GCM_POLY: Poly := {0, 1, 2, 7, 128}

  function PolyOf(s: seq<bv8>): Poly {
    set k | 0 <= k < 8 * |s| && Bit(s[k / 8], k % 8)
  }

  function GfMul(x: Poly, y: Poly): Poly {
    ModMul(x, y, GCM_POLY, 128)
  }

  lemma GcmPolyDegree()
    ensures Degree(GCM_POLY, 128)
  {}

  lemma PolyOfXor(a: seq<bv8>, b: seq<bv8>)
    requires |a| == |b|
    ensures PolyOf(Xor(a, b)) == Add(PolyOf(a), PolyOf(b))
  {
    hide Bit;
    forall k | 0 <= k < 8 * |a|
      ensures k in PolyOf(Xor(a, b)) <==> k in Add(PolyOf(a), PolyOf(b))
    {
      BitXor(a[k / 8], b[k / 8], k % 8);
    }
  }

  lemma PolyOfInjective(a: seq<bv8>, b: seq<bv8>)
    requires |a| == |b| && PolyOf(a) == PolyOf(b)
    ensures a == b
  {
    hide Bit;
    forall i | 0 <= i < |a| ensures a[i] == b[i] {
      forall j | 0 <= j < 8 ensures Bit(a[i], j) == Bit(b[i], j) {
        var k := 8 * i + j;
        assert k / 8 == i && k % 8 == j;
        assert k in PolyOf(a) <==> k in PolyOf(b);
      }
      BitsDetermine(a[i], b[i]);
    }
  }

  // ----- the one-bit shift of a block

  function ShiftedByte(b: bv8, carry: bool): bv8 {
    (b >> 1) | (if carry then 0x80 else 0)
  }

  predicate LowBit(b: bv8) {
    b & 1 != 0
  }

  function ShiftedRight(s: seq<bv8>): (r: seq<bv8>)
    ensures |r| == |s|
  {
    seq(|s|, i requires 0 <= i < |s| => ShiftedByte(s[i], i > 0 && LowBit(s[i - 1])))
  }

  lemma BitOfShifted(b: bv8, carry: bool, j: nat)
    requires j < 8
    ensures Bit(ShiftedByte(b, carry), j) == (if j == 0 then carry else Bit(b, j - 1))
  {
    if j == 0 {} else if j == 1 {} else if j == 2 {} else if j == 3 {}
    else if j == 4 {} else if j == 5 {} else if j == 6 {} else {}
  }

  lemma PolyBit(s: seq<bv8>, i: nat, j: nat)
    requires i < |s| && j < 8
    ensures 8 * i + j in PolyOf(s) <==> Bit(s[i], j)
  {
    hide Bit;
    assert (8 * i + j) / 8 == i && (8 * i + j) % 8 == j;
  }

  lemma ShiftedRightBit(s: seq<bv8>, i: nat, j: nat)
    requires i < |s| && j < 8
    ensures Bit(ShiftedRight(s)[i], j) ==
            if j > 0 then Bit(s[i], j - 1) else i > 0 && Bit(s[i - 1], 7)
  {
    BitOfShifted(s[i], i > 0 && s[i - 1] & 1 != 0, j);
  }

  lemma ShiftedRightAt(s: seq<bv8>, k: nat)
    requires k < 8 * |s|
    ensures k in PolyOf(ShiftedRight(s)) <==> k > 0 && k - 1 in PolyOf(s)
  {
    hide Bit, ShiftedRight;
    var i, j := k / 8, k % 8;
    PolyBit(ShiftedRight(s), i, j);
    ShiftedRightBit(s, i, j);
    if j > 0 {
      PolyBit(s, i, j - 1);
    } else if i > 0 {
      PolyBit(s, i - 1, 7);
    }
  }

  /** Shifting the bytes moves every coefficient up by one and drops the one
      that leaves the block. */
  lemma ShiftedRightPoly(s: seq<bv8>)
    ensures PolyOf(ShiftedRight(s)) == set e | e in Shift(PolyOf(s), 1) && e < 8 * |s|
  {
    hide Bit, ShiftedRight;
    forall k | 0 <= k < 8 * |s|
      ensures k in PolyOf(ShiftedRight(s)) <==> k in Shift(PolyOf(s), 1)
    {
      ShiftedRightAt(s, k);
    }
  }

  function Halved(b: bv8): bv8 {
    b >> 1
  }

  function WithTop(b: bv8): bv8 {
    b | 0x80
  }

  lemma ShiftOneByte(b: bv8)
    ensures Halved(b) == ShiftedByte(b, false) && WithTop(ShiftedByte(b, false)) == ShiftedByte(b, true)
  {}

  /** The in-place loop of galois_multiply: from the last byte to the first,
      the low bit of a byte is carried into the byte after it. */
  method ShiftRightInPlace(v: array<bv8>)
    requires v.Length == 16
    modifies v
    ensures v[..] == ShiftedRight(old(v[..]))
  {
    hide ShiftedByte, LowBit, Halved, WithTop;
    ghost var s := v[..];
    var k := 0;
    while k < 16
      invariant 0 <= k <= 16
      invariant forall i :: 0 <= i < 16 - k ==> v[i] == s[i]
      invariant forall i :: 16 - k < i < 16 ==> v[i] == ShiftedByte(s[i], LowBit(s[i - 1]))
      invariant k > 0 ==> v[16 - k] == ShiftedByte(s[16 - k], false)
    {
      if k != 0 && LowBit(v[15 - k]) {
        ShiftOneByte(s[16 - k]);
        v[16 - k] := WithTop(v[16 - k]);
      }
      ShiftOneByte(s[15 - k]);
      v[15 - k] := Halved(v[15 - k]);
      k := k + 1;
    }
  }

  lemma ReductionBits(j: nat)
    requires j < 8
    ensures Bit(0xe1, j) <==> j in {0, 1, 2, 7}
  {}

  lemma FirstByteReduction(s: seq<bv8>)
    requires |s| == 16
    ensures PolyOf(s[0 := s[0] ^ 0xe1]) == Add(PolyOf(s), {0, 1, 2, 7})
  {
    hide Bit;
    var t := s[0 := s[0] ^ 0xe1];
    forall k | 0 <= k < 128
      ensures k in PolyOf(t) <==> (k in PolyOf(s)) != (k in {0, 1, 2, 7})
    {
      PolyBit(s, k / 8, k % 8);
      PolyBit(t, k / 8, k % 8);
      if k < 8 {
        BitXor(s[0], 0xe1, k);
        ReductionBits(k);
      }
    }
  }

  lemma CarryIsTopBit(s: seq<bv8>)
    requires |s| == 16
    ensures s[15] & 1 != 0 <==> 128 in Shift(PolyOf(s), 1)
  {
    assert 127 / 8 == 15 && 127 % 8 == 7;
    assert 127 in PolyOf(s) <==> Bit(s[15], 7);
  }

  lemma TimesXOfBlock(s: seq<bv8>)
    requires |s| == 16
    ensures TimesX(PolyOf(s), GCM_POLY, 128) ==
            if s[15] & 1 != 0 then Add(PolyOf(ShiftedRight(s)), {0, 1, 2, 7}) else PolyOf(ShiftedRight(s))
  {
    hide Bit, ShiftedRight;
    CarryIsTopBit(s);
    ShiftedRightPoly(s);
    var sh := Shift(PolyOf(s), 1);
    var low := PolyOf(ShiftedRight(s));
    assert forall e :: e in sh ==> e <= 128;
    if 128 in sh {
      assert sh == Add(low, {128});
      AddAssociative(low, {128}, GCM_POLY);
      assert Add({128}, GCM_POLY) == {0, 1, 2, 7};
    } else {
      assert sh == low;
    }
  }

  method MultiplyByX(v: array<bv8>)
    requires v.Length == 16
    modifies v
    ensures PolyOf(v[..]) == TimesX(old(PolyOf(v[..])), GCM_POLY, 128)
  {
    hide PolyOf, TimesX, ShiftedRight;
    ghost var s := v[..];
    TimesXOfBlock(s);
    if v[15] & 1 != 0 {
      ShiftRightInPlace(v);
      FirstByteReduction(v[..]);
      ghost var t := v[..];
      v[0] := v[0] ^ 0xe1;
      assert v[..] == t[0 := t[0] ^ 0xe1];
    } else {
      ShiftRightInPlace(v);
    }
  }

  method XorInto(z: array<bv8>, v: array<bv8>)
    requires z.Length == 16 && v.Length == 16 && z != v
    modifies z
    ensures z[..] == Xor(old(z[..]), v[..])
  {
    hide XorByte, Xor;
    for k := 0 to 16
      invariant forall i :: 0 <= i < k ==> z[i] == XorByte(old(z[i]), v[i])
      invariant forall i :: k <= i < 16 ==> z[i] == old(z[i])
    {
      z[k] := XorByte(z[k], v[k]);
    }
    forall i | 0 <= i < 16 ensures z[i] == Xor(old(z[..]), v[..])[i] {
      XorAt(old(z[..]), v[..], i);
    }
  }

  lemma ZeroPoly(s: seq<bv8>)
    requires forall i :: 0 <= i < |s| ==> s[i] == 0
    ensures PolyOf(s) == {}
  {
    forall k | 0 <= k < 8 * |s| ensures k !in PolyOf(s) {
      assert s[k / 8] == 0;
    }
  }

  method CopyBlock(dst: array<bv8>, src: array<bv8>)
    requires dst.Length == 16 && src.Length == 16
    modifies dst
    ensures dst[..] == old(src[..])
  {
    for k := 0 to 16
      invariant forall t :: 0 <= t < k ==> dst[t] == old(src[t])
      invariant forall t :: k <= t < 16 ==> src[t] == old(src[t])
    {
      dst[k] := src[k];
    }
  }

  /** The eight steps of galois_multiply for byte i of x. */
  method MultiplyByByte(x: seq<bv8>, ghost y: Poly, i: nat, z: array<bv8>, v: array<bv8>)
    requires i < |x| && z.Length == 16 && v.Length == 16 && z != v
    requires PolyOf(v[..]) == Powers(y, GCM_POLY, 128, 8 * i)
    requires PolyOf(z[..]) == ShiftAndAdd(PolyOf(x), y, GCM_POLY, 128, 8 * i)
    modifies z, v
    ensures PolyOf(v[..]) == Powers(y, GCM_POLY, 128, 8 * i + 8)
    ensures PolyOf(z[..]) == ShiftAndAdd(PolyOf(x), y, GCM_POLY, 128, 8 * i + 8)
  {
    hide PolyOf, TimesX;
    var j := 0;
    while j < 8
      invariant 0 <= j <= 8
      invariant PolyOf(v[..]) == Powers(y, GCM_POLY, 128, 8 * i + j)
      invariant PolyOf(z[..]) == ShiftAndAdd(PolyOf(x), y, GCM_POLY, 128, 8 * i + j)
    {
      PolyBit(x, i, j);
      if Bit(x[i], j) {
        PolyOfXor(z[..], v[..]);
        XorInto(z, v);
      }
      MultiplyByX(v);
      j := j + 1;
    }
  }

  /** The block p stands for the product of the blocks x and y. */
  ghost predicate IsProduct(p: seq<bv8>, x: seq<bv8>, y: seq<bv8>) {
    |p| == |x| == |y| == 16 && PolyOf(p) == GfMul(PolyOf(x), PolyOf(y))
  }

  /** galois_multiply computes the product in GF(2^128). */
  method GaloisMultiply(x: seq<bv8>, y: seq<bv8>, out: array<bv8>)
    requires |x| == 16 && |y| == 16 && out.Length == 16
    modifies out
    ensures IsProduct(out[..], x, y)
  {
    hide PolyOf, TimesX;
    var v := new bv8[16](i requires 0 <= i < 16 => y[i]);
    assert v[..] == y;
    var z := new bv8[16](i => 0);
    ZeroPoly(z[..]);
    var i := 0;
    while i < 16
      invariant 0 <= i <= 16
      invariant PolyOf(v[..]) == Powers(PolyOf(y), GCM_POLY, 128, 8 * i)
      invariant PolyOf(z[..]) == ShiftAndAdd(PolyOf(x), PolyOf(y), GCM_POLY, 128, 8 * i)
    {
      MultiplyByByte(x, PolyOf(y), i, z, v);
      i := i + 1;
    }
    CopyBlock(out, z);
  }
}
