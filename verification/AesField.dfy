/** gmult of the AES programs: multiplication in GF(2^8) modulo
    x^8 + x^4 + x^3 + x + 1. Bit 7 - k of a byte (counted from the left) is the
    coefficient of x^k. */
module AesField {
  import opened Bytes
  import opened Gf2Poly

  const AES_POLY: Poly := {0, 1, 3, 4, 8}

  predicate Coefficient(b: bv8, k: nat)
    requires k < 8
  {
    Bit(b, 7 - k)
  }

  function BytePoly(b: bv8): Poly {
    set k | 0 <= k < 8 && Coefficient(b, k)
  }

  function ByteOf(p: Poly): bv8 {
    Pack(7 in p, 6 in p, 5 in p, 4 in p, 3 in p, 2 in p, 1 in p, 0 in p)
  }

  /** The product of two bytes in GF(2^8). */
  function Gf(a: bv8, b: bv8): bv8 {
    ByteOf(ModMul(BytePoly(a), BytePoly(b), AES_POLY, 8))
  }

  /** a <<= 1, and a ^= 0x1b when the high bit was set. */
  function Xtime(a: bv8): bv8 {
    if a & 0x80 != 0 then (a << 1) ^ 0x1b else a << 1
  }

  lemma AesPolyDegree()
    ensures Degree(AES_POLY, 8)
  {}

  lemma BytePolyDegree(b: bv8)
    ensures DegreeBelow(BytePoly(b), 8)
  {}

  lemma ByteOfPoly(p: Poly)
    requires DegreeBelow(p, 8)
    ensures BytePoly(ByteOf(p)) == p
  {
    hide Coefficient, ByteOf;
    var q := BytePoly(ByteOf(p));
    forall k: nat ensures k in q <==> k in p {
      if k < 8 { ByteOfPolyAt(p, k); }
    }
  }

  lemma ByteOfPolyAt(p: Poly, k: nat)
    requires k < 8
    ensures Coefficient(ByteOf(p), k) <==> k in p
  {
    hide Bit, Pack;
    BitsOfPack(7 in p, 6 in p, 5 in p, 4 in p, 3 in p, 2 in p, 1 in p, 0 in p);
    if k == 0 {} else if k == 1 {} else if k == 2 {} else if k == 3 {}
    else if k == 4 {} else if k == 5 {} else if k == 6 {} else {}
  }

  lemma PolyOfByteDetermines(a: bv8, b: bv8)
    requires BytePoly(a) == BytePoly(b)
    ensures a == b
  {
    hide Bit;
    forall j | 0 <= j < 8 ensures Bit(a, j) == Bit(b, j) {
      assert 7 - j in BytePoly(a) <==> 7 - j in BytePoly(b);
    }
    BitsDetermine(a, b);
  }

  lemma BytePolyXor(a: bv8, b: bv8)
    ensures BytePoly(a ^ b) == Add(BytePoly(a), BytePoly(b))
  {
    hide Bit;
    forall k: nat ensures k in BytePoly(a ^ b) <==> k in Add(BytePoly(a), BytePoly(b)) {
      if k < 8 { BitXor(a, b, 7 - k); }
    }
  }

  lemma BitOfShl(a: bv8, j: nat)
    requires j < 8
    ensures Bit(a << 1, j) == (j < 7 && Bit(a, j + 1))
  {
    if j == 0 {} else if j == 1 {} else if j == 2 {} else if j == 3 {}
    else if j == 4 {} else if j == 5 {} else if j == 6 {} else {}
  }

  lemma BitOfShr(a: bv8, j: nat)
    requires j < 8
    ensures Bit(a >> 1, j) == (j > 0 && Bit(a, j - 1))
  {
    if j == 0 {} else if j == 1 {} else if j == 2 {} else if j == 3 {}
    else if j == 4 {} else if j == 5 {} else if j == 6 {} else {}
  }

  lemma ReductionByte(k: nat)
    ensures k in BytePoly(0x1b) <==> k in {0, 1, 3, 4}
  {
    if k == 0 {} else if k == 1 {} else if k == 2 {} else if k == 3 {}
    else if k == 4 {} else if k == 5 {} else if k == 6 {} else if k == 7 {}
  }

  lemma ShlPoly(a: bv8)
    ensures BytePoly(a << 1) == set k | k in Shift(BytePoly(a), 1) && k < 8
  {
    hide Bit;
    forall k: nat | k < 8 ensures k in BytePoly(a << 1) <==> k in Shift(BytePoly(a), 1) {
      BitOfShl(a, 7 - k);
      if k > 0 { assert 7 - (k - 1) == 7 - k + 1; }
    }
  }

  /** Xtime is multiplication by x. */
  lemma XtimePoly(a: bv8)
    ensures BytePoly(Xtime(a)) == TimesX(BytePoly(a), AES_POLY, 8)
  {
    hide Bit, BytePoly;
    var p := BytePoly(a);
    var s := Shift(p, 1);
    ShlPoly(a);
    HighBit(a);
    BytePolyDegree(a);
    BytePolyXor(a << 1, 0x1b);
    assert forall e :: e in s ==> e <= 8;
    if 8 in s {
      ReductionPoly();
      assert s == Add(BytePoly(a << 1), {8});
      AddAssociative(BytePoly(a << 1), {8}, AES_POLY);
      assert Add({8}, AES_POLY) == {0, 1, 3, 4};
    } else {
      assert s == BytePoly(a << 1);
    }
  }

  lemma ReductionPoly()
    ensures BytePoly(0x1b) == {0, 1, 3, 4}
  {
    hide BytePoly;
    forall k: nat ensures k in BytePoly(0x1b) <==> k in {0, 1, 3, 4} {
      ReductionByte(k);
    }
  }

  lemma HighBit(a: bv8)
    ensures a & 0x80 != 0 <==> 8 in Shift(BytePoly(a), 1)
  {
    assert 7 in BytePoly(a) <==> Bit(a, 0);
  }

  lemma GfPoly(a: bv8, b: bv8)
    ensures BytePoly(Gf(a, b)) == ModMul(BytePoly(a), BytePoly(b), AES_POLY, 8)
  {
    hide BytePoly, ByteOf, ModMul, Degree, DegreeBelow;
    AesPolyDegree();
    BytePolyDegree(a);
    BytePolyDegree(b);
    ModMulIsProductModM(BytePoly(a), BytePoly(b), AES_POLY, 8);
    ByteOfPoly(ModMul(BytePoly(a), BytePoly(b), AES_POLY, 8));
  }

  /** Gf is the product of polynomials modulo the AES polynomial. */
  lemma GfIsFieldProduct(a: bv8, b: bv8)
    ensures Congruent(Mul(BytePoly(a), BytePoly(b)), BytePoly(Gf(a, b)), AES_POLY)
    ensures forall c :: Congruent(Mul(BytePoly(a), BytePoly(b)), BytePoly(c), AES_POLY) ==> c == Gf(a, b)
  {
    hide BytePoly, Gf, ModMul, Congruent, Mul, Degree, DegreeBelow;
    AesPolyDegree();
    BytePolyDegree(a);
    BytePolyDegree(b);
    ModMulIsProductModM(BytePoly(a), BytePoly(b), AES_POLY, 8);
    GfPoly(a, b);
    forall c | Congruent(Mul(BytePoly(a), BytePoly(b)), BytePoly(c), AES_POLY) ensures c == Gf(a, b) {
      BytePolyDegree(c);
      PolyOfByteDetermines(c, Gf(a, b));
    }
  }

  lemma GfCommutative(a: bv8, b: bv8)
    ensures Gf(a, b) == Gf(b, a)
  {
    hide BytePoly, ModMul, Degree, DegreeBelow, ByteOf;
    AesPolyDegree();
    BytePolyDegree(a);
    BytePolyDegree(b);
    ModMulCommutative(BytePoly(a), BytePoly(b), AES_POLY, 8);
  }

  lemma GfAssociative(a: bv8, b: bv8, c: bv8)
    ensures Gf(Gf(a, b), c) == Gf(a, Gf(b, c))
  {
    hide BytePoly, ModMul, Degree, DegreeBelow, ByteOf;
    AesPolyDegree();
    BytePolyDegree(a);
    BytePolyDegree(b);
    BytePolyDegree(c);
    GfPoly(a, b);
    GfPoly(b, c);
    ModMulAssociative(BytePoly(a), BytePoly(b), BytePoly(c), AES_POLY, 8);
  }

  lemma GfDistributes(a: bv8, b: bv8, c: bv8)
    ensures Gf(a ^ b, c) == Gf(a, c) ^ Gf(b, c)
  {
    hide BytePoly, ModMul, Degree, DegreeBelow, ByteOf, Gf, Add;
    AesPolyDegree();
    BytePolyDegree(a);
    BytePolyDegree(b);
    BytePolyDegree(c);
    BytePolyXor(a, b);
    GfPoly(a, c);
    GfPoly(b, c);
    GfPoly(a ^ b, c);
    ModMulAddLeft(BytePoly(a), BytePoly(b), BytePoly(c), AES_POLY, 8);
    BytePolyXor(Gf(a, c), Gf(b, c));
    PolyOfByteDetermines(Gf(a ^ b, c), Gf(a, c) ^ Gf(b, c));
  }

  lemma GfOne(b: bv8)
    ensures Gf(1, b) == b
  {
    hide BytePoly, ModMul, Degree, DegreeBelow, Gf;
    AesPolyDegree();
    BytePolyDegree(b);
    OnePoly();
    ModMulOne(BytePoly(b), AES_POLY, 8);
    GfPoly(1, b);
    PolyOfByteDetermines(Gf(1, b), b);
  }

  lemma OnePoly()
    ensures BytePoly(1) == {0}
  {}

  lemma TwoPoly()
    ensures BytePoly(2) == {1}
  {}

  lemma {:induction false} OnlyTermOne(y: Poly, m: Poly, d: nat, n: nat)
    ensures ShiftAndAdd({1}, y, m, d, n) == if n >= 2 then TimesX(y, m, d) else {}
  {
    hide TimesX;
    if n > 0 {
      OnlyTermOne(y, m, d, n - 1);
      if n == 2 {
        assert Powers(y, m, d, 1) == TimesX(Powers(y, m, d, 0), m, d);
        AddZero(TimesX(y, m, d));
      }
    }
  }

  lemma GfTwo(b: bv8)
    ensures Gf(2, b) == Xtime(b)
  {
    hide BytePoly, TimesX, ShiftAndAdd, Gf;
    TwoPoly();
    OnlyTermOne(BytePoly(b), AES_POLY, 8, 8);
    XtimePoly(b);
    GfPoly(2, b);
    PolyOfByteDetermines(Gf(2, b), Xtime(b));
  }

  /** The terms of p of degree i and above. */
  function From(p: Poly, i: nat): Poly {
    set e | e in p && e >= i
  }

  lemma ShrPoly(b: bv8)
    ensures Shift(BytePoly(b >> 1), 1) == From(BytePoly(b), 1)
  {
    hide Bit;
    forall e: nat | 1 <= e < 8 ensures e in Shift(BytePoly(b >> 1), 1) <==> e in BytePoly(b) {
      BitOfShr(b, 7 - (e - 1));
    }
    BitOfShr(b, 0);
    assert 7 !in BytePoly(b >> 1);
  }

  lemma DropTerm(b: bv8, p: Poly, i: nat)
    requires Shift(BytePoly(b), i) == From(p, i)
    ensures b & 1 != 0 <==> i in p
    ensures Shift(BytePoly(b >> 1), i + 1) == From(p, i + 1)
  {
    hide BytePoly;
    LowBit(b);
    assert i in Shift(BytePoly(b), i) <==> 0 in BytePoly(b);
    ShrPoly(b);
    ShiftShift(BytePoly(b >> 1), 1, i);
    assert Shift(From(BytePoly(b), 1), i) == From(Shift(BytePoly(b), i), i + 1);
    assert From(From(p, i), i + 1) == From(p, i + 1);
  }

  /** The loop of gmult computes the field product. */
  method Gmult(a0: bv8, b0: bv8) returns (p: bv8)
    ensures p == Gf(a0, b0)
  {
    hide BytePoly, TimesX, Gf, Xtime, Shift, From, Add;
    ghost var pa, pb := BytePoly(a0), BytePoly(b0);
    var a, b := a0, b0;
    p := 0;
    ZeroByte();
    NothingDropped(pb);
    for i := 0 to 8
      invariant BytePoly(a) == Powers(pa, AES_POLY, 8, i)
      invariant BytePoly(p) == ShiftAndAdd(pb, pa, AES_POLY, 8, i)
      invariant Shift(BytePoly(b), i) == From(pb, i)
    {
      DropTerm(b, pb, i);
      if b & 1 != 0 {
        BytePolyXor(p, a);
        p := p ^ a;
      }
      XtimePoly(a);
      XtimeIs(a);
      var hbs := a & 0x80;
      a := a << 1;
      if hbs != 0 {
        a := a ^ 0x1b;
      }
      b := b >> 1;
    }
    GfPoly(b0, a0);
    GfCommutative(a0, b0);
    PolyOfByteDetermines(p, Gf(b0, a0));
  }

  lemma NothingDropped(p: Poly)
    ensures Shift(p, 0) == From(p, 0)
  {}

  lemma XtimeIs(a: bv8)
    ensures Xtime(a) == if a & 0x80 != 0 then (a << 1) ^ 0x1b else a << 1
  {}

  lemma ZeroByte()
    ensures BytePoly(0) == {}
  {}

  lemma LowBit(b: bv8)
    ensures b & 1 != 0 <==> 0 in BytePoly(b)
  {}
}
