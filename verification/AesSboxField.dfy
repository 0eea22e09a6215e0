/** The tabulated S-box is the construction of section 5.1.1 of FIPS 197: the
    inverse in the byte field followed by an affine map on the bits. */
module AesSboxField {
  import opened Bytes
  import opened AesField
  import opened AesSbox
  import opened Aes

  // ----- the affine map

  function RotateLeft(b: bv8, n: nat): bv8
    requires n <= 8
  {
    (b << n) | (b >> (8 - n))
  }

  function Affine(b: bv8): bv8 {
    b ^ RotateLeft(b, 1) ^ RotateLeft(b, 2) ^ RotateLeft(b, 3) ^ RotateLeft(b, 4) ^ 0x63
  }

  function UnAffine(b: bv8): bv8 {
    RotateLeft(b, 1) ^ RotateLeft(b, 3) ^ RotateLeft(b, 6) ^ 0x05
  }

  lemma AffineOfUnAffine(b: bv8)
    ensures Affine(UnAffine(b)) == b
  {}

  // ----- the product by bits of the first factor

  function If(on: bool, b: bv8): bv8 {
    if on then b else 0
  }

  predicate On(x: bv8, m: bv8) {
    x & m != 0
  }

  function Part(x: bv8, m: bv8): bv8 {
    x & m
  }

  function ByBits(x: bv8, y: bv8): bv8 {
    var y1 := Xtime(y); var y2 := Xtime(y1); var y3 := Xtime(y2); var y4 := Xtime(y3);
    var y5 := Xtime(y4); var y6 := Xtime(y5); var y7 := Xtime(y6);
    XorByte(If(On(x, 0x01), y), XorByte(If(On(x, 0x02), y1), XorByte(If(On(x, 0x04), y2), XorByte(If(On(x, 0x08), y3),
    XorByte(If(On(x, 0x10), y4), XorByte(If(On(x, 0x20), y5), XorByte(If(On(x, 0x40), y6), If(On(x, 0x80), y7))))))))
  }

  /** The entries in one quarter of the table. */
  lemma QuarterIsInverse(x: bv8, top: bv8)
    requires x != 0 && x & 0xc0 == top && (top == 0 || top == 0x40 || top == 0x80 || top == 0xc0)
    ensures ByBits(x, UnAffine(SubByte(x))) == 1
  {
    if top == 0 {} else if top == 0x40 {} else if top == 0x80 {} else {}
  }

  lemma TableIsInverse(x: bv8)
    requires x != 0
    ensures ByBits(x, UnAffine(SubByte(x))) == 1
  {
    hide ByBits, UnAffine, SubByte;
    QuarterIsInverse(x, x & 0xc0);
  }

  lemma PowersOfTwo()
    ensures Xtime(0x01) == 0x02 && Xtime(0x02) == 0x04 && Xtime(0x04) == 0x08 && Xtime(0x08) == 0x10
    ensures Xtime(0x10) == 0x20 && Xtime(0x20) == 0x40 && Xtime(0x40) == 0x80
  {}

  /** x is the exclusive or of its bits. */
  lemma SplitBits(x: bv8)
    ensures x == (x & 0x01) ^ ((x & 0x02) ^ ((x & 0x04) ^ ((x & 0x08) ^ ((x & 0x10) ^ ((x & 0x20) ^ ((x & 0x40) ^ (x & 0x80)))))))
  {}

  lemma GfZero(y: bv8)
    ensures Gf(0, y) == 0
  {
    hide Gf;
    GfPlus(0, 0, y);
    PlusItself(Gf(0, y));
  }

  lemma PlusItself(b: bv8)
    ensures XorByte(b, b) == 0 && (0 as bv8) ^ 0 == 0
  {}

  predicate IsPower(m: bv8) {
    m == 0x01 || m == 0x02 || m == 0x04 || m == 0x08 || m == 0x10 || m == 0x20 || m == 0x40 || m == 0x80
  }

  lemma OneBit(x: bv8, m: bv8)
    requires IsPower(m)
    ensures Part(x, m) == if On(x, m) then m else 0
  {}

  lemma GfOfBit(x: bv8, m: bv8, y: bv8)
    requires IsPower(m)
    ensures Gf(Part(x, m), y) == If(On(x, m), Gf(m, y))
  {
    hide Gf, Part, On, IsPower;
    OneBit(x, m);
    GfZero(y);
  }

  lemma GfOfPowers(y: bv8)
    ensures var y1 := Xtime(y); var y2 := Xtime(y1); var y3 := Xtime(y2); var y4 := Xtime(y3);
      var y5 := Xtime(y4); var y6 := Xtime(y5); var y7 := Xtime(y6);
      && Gf(0x01, y) == y && Gf(0x02, y) == y1 && Gf(0x04, y) == y2 && Gf(0x08, y) == y3
      && Gf(0x10, y) == y4 && Gf(0x20, y) == y5 && Gf(0x40, y) == y6 && Gf(0x80, y) == y7
  {
    hide Gf, Xtime;
    GfOne(y);
    PowersOfTwo();
    Doubling(0x01, y);
    Doubling(0x02, y);
    Doubling(0x04, y);
    Doubling(0x08, y);
    Doubling(0x10, y);
    Doubling(0x20, y);
    Doubling(0x40, y);
  }

  function Chain(a: bv8, b: bv8, c: bv8, d: bv8, e: bv8, f: bv8, g: bv8, h: bv8): bv8 {
    XorByte(a, XorByte(b, XorByte(c, XorByte(d, XorByte(e, XorByte(f, XorByte(g, h)))))))
  }

  lemma GfOfChain(a: bv8, b: bv8, c: bv8, d: bv8, e: bv8, f: bv8, g: bv8, h: bv8, y: bv8)
    ensures Gf(Chain(a, b, c, d, e, f, g, h), y)
         == Chain(Gf(a, y), Gf(b, y), Gf(c, y), Gf(d, y), Gf(e, y), Gf(f, y), Gf(g, y), Gf(h, y))
  {
    hide Gf, XorByte;
    var s6 := XorByte(g, h);
    var s5 := XorByte(f, s6);
    var s4 := XorByte(e, s5);
    var s3 := XorByte(d, s4);
    var s2 := XorByte(c, s3);
    var s1 := XorByte(b, s2);
    GfOfSum(g, h, y);
    GfOfSum(f, s6, y);
    GfOfSum(e, s5, y);
    GfOfSum(d, s4, y);
    GfOfSum(c, s3, y);
    GfOfSum(b, s2, y);
    GfOfSum(a, s1, y);
  }

  lemma GfOfSum(j: bv8, k: bv8, y: bv8)
    ensures Gf(XorByte(j, k), y) == XorByte(Gf(j, y), Gf(k, y))
  {
    hide Gf;
    GfPlus(j, k, y);
  }

  lemma ChainOfBits(x: bv8)
    ensures x == Chain(Part(x, 0x01), Part(x, 0x02), Part(x, 0x04), Part(x, 0x08),
                      Part(x, 0x10), Part(x, 0x20), Part(x, 0x40), Part(x, 0x80))
  {
    SplitBits(x);
  }

  lemma GfByBits(x: bv8, y: bv8)
    ensures Gf(x, y) == ByBits(x, y)
  {
    hide Gf, Xtime, XorByte, If, Part, On;
    ChainOfBits(x);
    GfOfChain(Part(x, 0x01), Part(x, 0x02), Part(x, 0x04), Part(x, 0x08), Part(x, 0x10), Part(x, 0x20), Part(x, 0x40), Part(x, 0x80), y);
    GfOfBit(x, 0x01, y);
    GfOfBit(x, 0x02, y);
    GfOfBit(x, 0x04, y);
    GfOfBit(x, 0x08, y);
    GfOfBit(x, 0x10, y);
    GfOfBit(x, 0x20, y);
    GfOfBit(x, 0x40, y);
    GfOfBit(x, 0x80, y);
    GfOfPowers(y);
  }

  // ----- the theorem

  lemma InverseUnique(x: bv8, y: bv8, z: bv8)
    requires Gf(x, y) == 1 && Gf(x, z) == 1
    ensures y == z
  {
    hide Gf;
    GfOne(y);
    GfOne(z);
    GfCommutative(x, z);
    GfAssociative(z, x, y);
    GfCommutative(z, 1);
  }

  /** The substitution of a byte: 63 for zero, and for any other byte the affine
      image of its inverse, which exists and is the only one. */
  lemma SboxIsAffineInverse(x: bv8, y: bv8)
    ensures x == 0 ==> SubByte(x) == 0x63
    ensures x != 0 ==> exists z :: Gf(x, z) == 1
    ensures Gf(x, y) == 1 ==> SubByte(x) == Affine(y)
  {
    hide Gf, Affine, UnAffine, ByBits;
    var z := UnAffine(SubByte(x));
    if x == 0 {
      GfZero(y);
    } else {
      TableIsInverse(x);
      GfByBits(x, z);
      assert Gf(x, z) == 1;
      AffineOfUnAffine(SubByte(x));
      if Gf(x, y) == 1 { InverseUnique(x, y, z); }
    }
  }
}
