/** Bytes, their bits (bit 0 is the most significant one, as the crypto programs
    number them), xor of byte strings and big-endian integers. */
module Bytes {
  import opened Arith

  predicate Bit(b: bv8, j: nat)
    requires j < 8
  {
    if j == 0 then b & 0x80 != 0 else if j == 1 then b & 0x40 != 0
    else if j == 2 then b & 0x20 != 0 else if j == 3 then b & 0x10 != 0
    else if j == 4 then b & 0x08 != 0 else if j == 5 then b & 0x04 != 0
    else if j == 6 then b & 0x02 != 0 else b & 0x01 != 0
  }

  lemma BitXor(x: bv8, y: bv8, j: nat)
    requires j < 8
    ensures Bit(x ^ y, j) == (Bit(x, j) != Bit(y, j))
  {
    if j == 0 {} else if j == 1 {} else if j == 2 {} else if j == 3 {}
    else if j == 4 {} else if j == 5 {} else if j == 6 {} else {}
  }

  lemma BitsDetermine(x: bv8, y: bv8)
    requires forall j :: 0 <= j < 8 ==> Bit(x, j) == Bit(y, j)
    ensures x == y
  {
    assert Bit(x, 0) == Bit(y, 0) && Bit(x, 1) == Bit(y, 1) && Bit(x, 2) == Bit(y, 2);
    assert Bit(x, 3) == Bit(y, 3) && Bit(x, 4) == Bit(y, 4) && Bit(x, 5) == Bit(y, 5);
    assert Bit(x, 6) == Bit(y, 6) && Bit(x, 7) == Bit(y, 7);
  }

  function Xor(a: seq<bv8>, b: seq<bv8>): (r: seq<bv8>)
    requires |a| == |b|
    ensures |r| == |a|
  {
    seq(|a|, i requires 0 <= i < |a| => a[i] ^ b[i])
  }

  lemma XorCancels(a: seq<bv8>, b: seq<bv8>)
    requires |a| == |b|
    ensures Xor(Xor(a, b), b) == a
  {
    forall i | 0 <= i < |a| ensures Xor(Xor(a, b), b)[i] == a[i] {
      assert (a[i] ^ b[i]) ^ b[i] == a[i];
    }
  }

  function Zeros(n: nat): (s: seq<bv8>)
    ensures |s| == n && forall i :: 0 <= i < n ==> s[i] == 0
  {
    seq(n, i => 0)
  }

  function XorByte(a: bv8, b: bv8): bv8 {
    a ^ b
  }

  lemma XorByteCancels(a: bv8, b: bv8)
    ensures XorByte(XorByte(a, b), b) == a
  {}

  lemma XorAt(a: seq<bv8>, b: seq<bv8>, i: nat)
    requires i < |a| == |b|
    ensures Xor(a, b)[i] == XorByte(a[i], b[i])
  {}

  lemma XorCommutes(a: seq<bv8>, b: seq<bv8>)
    requires |a| == |b|
    ensures Xor(a, b) == Xor(b, a)
  {}

  // ----- a byte as a number

  function Mask(on: bool, m: bv8): bv8 {
    if on then m else 0
  }

  function Pack(b7: bool, b6: bool, b5: bool, b4: bool, b3: bool, b2: bool, b1: bool, b0: bool): bv8 {
    Mask(b7, 0x80) | Mask(b6, 0x40) | Mask(b5, 0x20) | Mask(b4, 0x10)
    | Mask(b3, 0x08) | Mask(b2, 0x04) | Mask(b1, 0x02) | Mask(b0, 0x01)
  }

  function Num(on: bool): nat {
    if on then 1 else 0
  }

  function Value(b7: bool, b6: bool, b5: bool, b4: bool, b3: bool, b2: bool, b1: bool, b0: bool): (n: nat)
    ensures n < 256
  {
    2 * (2 * (2 * (2 * (2 * (2 * (2 * Num(b7) + Num(b6)) + Num(b5)) + Num(b4)) + Num(b3)) + Num(b2)) + Num(b1)) + Num(b0)
  }

  /** n halved k times */
  function Half(n: nat, k: nat): nat {
    if k == 0 then n else Half(n / 2, k - 1)
  }

  /** Binary digit k of n */
  predicate Digit(n: nat, k: nat) {
    Half(n, k) % 2 == 1
  }

  /** The byte with the eight low-order binary digits of n. */
  function ToByte(n: nat): bv8 {
    Pack(Digit(n, 7), Digit(n, 6), Digit(n, 5), Digit(n, 4), Digit(n, 3), Digit(n, 2), Digit(n, 1), Digit(n, 0))
  }

  function ToNat(b: bv8): (n: nat)
    ensures n < 256
  {
    Value(Bit(b, 0), Bit(b, 1), Bit(b, 2), Bit(b, 3), Bit(b, 4), Bit(b, 5), Bit(b, 6), Bit(b, 7))
  }

  lemma BitsOfPack(b7: bool, b6: bool, b5: bool, b4: bool, b3: bool, b2: bool, b1: bool, b0: bool)
    ensures var b := Pack(b7, b6, b5, b4, b3, b2, b1, b0);
      && Bit(b, 0) == b7 && Bit(b, 1) == b6 && Bit(b, 2) == b5 && Bit(b, 3) == b4
      && Bit(b, 4) == b3 && Bit(b, 5) == b2 && Bit(b, 6) == b1 && Bit(b, 7) == b0
  {}

  lemma ToNatOfPack(b7: bool, b6: bool, b5: bool, b4: bool, b3: bool, b2: bool, b1: bool, b0: bool)
    ensures ToNat(Pack(b7, b6, b5, b4, b3, b2, b1, b0)) == Value(b7, b6, b5, b4, b3, b2, b1, b0)
  {
    hide Pack, Bit, Value;
    BitsOfPack(b7, b6, b5, b4, b3, b2, b1, b0);
  }

  lemma {:induction false} HalfStep(n: nat, k: nat)
    ensures Half(n, k) == 2 * Half(n, k + 1) + Num(Digit(n, k))
  {
    if k > 0 { HalfStep(n / 2, k - 1); }
  }

  lemma HalfOfByte(n: nat)
    requires n < 256
    ensures Half(n, 8) == 0
  {
    assert Half(n, 8) == Half(n / 2, 7) == Half(n / 2 / 2, 6);
    assert Half(n / 2 / 2, 6) == Half(n / 2 / 2 / 2, 5) == Half(n / 2 / 2 / 2 / 2, 4);
    assert Half(n / 2 / 2 / 2 / 2, 4) == Half(n / 2 / 2 / 2 / 2 / 2, 3) == Half(n / 2 / 2 / 2 / 2 / 2 / 2, 2);
  }

  lemma BinaryOfByte(n: nat)
    requires n < 256
    ensures n == Value(Digit(n, 7), Digit(n, 6), Digit(n, 5), Digit(n, 4), Digit(n, 3), Digit(n, 2), Digit(n, 1), Digit(n, 0))
  {
    assert Half(n, 0) == n;
    HalfOfByte(n);
    hide Half, Digit;
    HalfStep(n, 0);
    HalfStep(n, 1);
    HalfStep(n, 2);
    HalfStep(n, 3);
    HalfStep(n, 4);
    HalfStep(n, 5);
    HalfStep(n, 6);
    HalfStep(n, 7);
  }

  lemma ToNatOfToByte(n: nat)
    requires n < 256
    ensures ToNat(ToByte(n)) == n
  {
    hide Pack, Digit, Value, ToNat;
    ToNatOfPack(Digit(n, 7), Digit(n, 6), Digit(n, 5), Digit(n, 4), Digit(n, 3), Digit(n, 2), Digit(n, 1), Digit(n, 0));
    BinaryOfByte(n);
  }

  lemma {:induction false} HalfOfZero(k: nat)
    ensures Half(0, k) == 0
  {
    if k > 0 { HalfOfZero(k - 1); }
  }

  lemma SmallDigits(k: nat)
    ensures !Digit(0, k) && Digit(1, k) == (k == 0)
  {
    HalfOfZero(k);
    if k > 0 { HalfOfZero(k - 1); }
  }

  lemma SmallBytes()
    ensures ToByte(0) == 0 && ToByte(1) == 1
  {
    hide Digit;
    SmallDigits(0); SmallDigits(1); SmallDigits(2); SmallDigits(3);
    SmallDigits(4); SmallDigits(5); SmallDigits(6); SmallDigits(7);
  }

  // ----- big-endian integers

  function Pow256(k: nat): (p: nat)
    ensures p >= 1
  {
    if k == 0 then 1 else 256 * Pow256(k - 1)
  }

  /** The k low-order bytes of n, most significant first. */
  function BigEndian(n: nat, k: nat): (s: seq<bv8>)
    ensures |s| == k
  {
    if k == 0 then [] else BigEndian(n / 256, k - 1) + [ToByte(n % 256)]
  }

  function FromBigEndian(s: seq<bv8>): (n: nat)
    ensures n < Pow256(|s|)
  {
    if s == [] then 0 else 256 * FromBigEndian(s[..|s| - 1]) + ToNat(s[|s| - 1])
  }

  lemma {:induction false} BigEndianRoundTrip(n: nat, k: nat)
    ensures FromBigEndian(BigEndian(n, k)) == n % Pow256(k)
  {
    hide ToByte, ToNat;
    if k > 0 {
      var s := BigEndian(n, k);
      BigEndianRoundTrip(n / 256, k - 1);
      assert s[..k - 1] == BigEndian(n / 256, k - 1);
      ToNatOfToByte(n % 256);
      DivSplit(n, 256, Pow256(k - 1));
    }
  }

  /** Two numbers below 256^k with the same encoding are equal. */
  lemma BigEndianInjective(m: nat, n: nat, k: nat)
    requires m < Pow256(k) && n < Pow256(k)
    requires BigEndian(m, k) == BigEndian(n, k)
    ensures m == n
  {
    BigEndianRoundTrip(m, k);
    BigEndianRoundTrip(n, k);
    SmallMod(m, Pow256(k));
    SmallMod(n, Pow256(k));
  }

  /** Byte t of the encoding is the value shifted right and truncated. */
  lemma {:induction false} BigEndianAt(n: nat, k: nat, t: nat)
    requires t < k
    ensures BigEndian(n, k)[t] == ToByte((n / Pow256(k - 1 - t)) % 256)
  {
    hide ToByte;
    if t < k - 1 {
      BigEndianAt(n / 256, k - 1, t);
      DivSplit(n, 256, Pow256(k - 2 - t));
    }
  }

  /** Only the value modulo 256^k is encoded. */
  lemma {:induction false} BigEndianMod(n: nat, k: nat)
    ensures BigEndian(n % Pow256(k), k) == BigEndian(n, k)
  {
    hide ToByte;
    if k > 0 {
      DivSplit(n, 256, Pow256(k - 1));
      var m := n % Pow256(k);
      DivModUnique(m, 256, (n / 256) % Pow256(k - 1), n % 256);
      BigEndianMod(n / 256, k - 1);
    }
  }

  const TWO_64: nat := 0x1_0000_0000_0000_0000

  lemma Pow256Of8()
    ensures Pow256(8) == TWO_64
  {
    assert Pow256(2) == 0x1_0000 && Pow256(4) == 0x1_0000_0000 && Pow256(6) == 0x1_0000_0000_0000;
  }
}
