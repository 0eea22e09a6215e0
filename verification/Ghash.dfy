/** GHASH (gHash in aes_gcm.cc): the in-place fold over blocks, the polynomial
    it evaluates, and its linearity. */
module Ghash {
  import opened Bytes
  import opened Gf2Poly
  import opened Gcm

  function Block(data: seq<bv8>, i: nat): Poly
    requires 16 * i + 16 <= |data|
  {
    PolyOf(data[16 * i..16 * i + 16])
  }

  /** The running value of gHash after n blocks. */
  function HashBlocks(data: seq<bv8>, n: nat, h: Poly): Poly
    requires 16 * n <= |data|
  {
    if n == 0 then {} else GfMul(Add(HashBlocks(data, n - 1, h), Block(data, n - 1)), h)
  }

  function Hash(data: seq<bv8>, h: Poly): Poly {
    HashBlocks(data, |data| / 16, h)
  }

  function Power(h: Poly, k: nat): Poly {
    if k == 0 then {0} else GfMul(Power(h, k - 1), h)
  }

  /** The sum over the first n blocks of block i times h^(total - i). */
  function Evaluate(data: seq<bv8>, n: nat, total: nat, h: Poly): Poly
    requires 16 * n <= |data| && n <= total
  {
    if n == 0 then {}
    else Add(Evaluate(data, n - 1, total, h), GfMul(Block(data, n - 1), Power(h, total - (n - 1))))
  }

  ghost predicate InField(p: Poly) {
    DegreeBelow(p, 128)
  }

  // ----- GF(2^128) as a ring

  lemma PolyOfInField(s: seq<bv8>)
    requires |s| == 16
    ensures InField(PolyOf(s))
  {}

  /** galois_multiply's product is the product of polynomials modulo
      x^128 + x^7 + x^2 + x + 1, and the only such residue. */
  lemma GfMulIsFieldProduct(x: Poly, y: Poly)
    requires InField(x) && InField(y)
    ensures InField(GfMul(x, y))
    ensures Congruent(Mul(x, y), GfMul(x, y), GCM_POLY)
    ensures forall z :: InField(z) && Congruent(Mul(x, y), z, GCM_POLY) ==> z == GfMul(x, y)
  {
    hide Congruent, ModMul, Mul, DegreeBelow, Degree;
    GcmPolyDegree();
    ModMulIsProductModM(x, y, GCM_POLY, 128);
  }

  lemma GfMulCommutative(x: Poly, y: Poly)
    requires InField(x) && InField(y)
    ensures GfMul(x, y) == GfMul(y, x)
  {
    hide ModMul, DegreeBelow, Degree;
    GcmPolyDegree();
    ModMulCommutative(x, y, GCM_POLY, 128);
  }

  lemma GfMulAssociative(x: Poly, y: Poly, z: Poly)
    requires InField(x) && InField(y) && InField(z)
    ensures GfMul(GfMul(x, y), z) == GfMul(x, GfMul(y, z))
  {
    hide ModMul, DegreeBelow, Degree;
    GcmPolyDegree();
    ModMulAssociative(x, y, z, GCM_POLY, 128);
  }

  lemma GfMulAdd(x: Poly, x': Poly, y: Poly)
    requires InField(x) && InField(x') && InField(y)
    ensures GfMul(Add(x, x'), y) == Add(GfMul(x, y), GfMul(x', y))
  {
    hide ModMul, DegreeBelow, Degree, Add;
    GcmPolyDegree();
    ModMulAddLeft(x, x', y, GCM_POLY, 128);
  }

  /** The bytes galois_multiply writes are determined by its arguments and do not
      depend on their order. */
  lemma ProductBlocksCommute(p: seq<bv8>, q: seq<bv8>, x: seq<bv8>, y: seq<bv8>)
    requires IsProduct(p, x, y) && IsProduct(q, y, x)
    ensures p == q
  {
    hide PolyOf, GfMul, InField;
    PolyOfInField(x);
    PolyOfInField(y);
    GfMulCommutative(PolyOf(x), PolyOf(y));
    PolyOfInjective(p, q);
  }

  /** The product of an exclusive or is the exclusive or of the products, in either
      argument. */
  lemma ProductBlocksAdd(p: seq<bv8>, p': seq<bv8>, q: seq<bv8>, x: seq<bv8>, x': seq<bv8>, y: seq<bv8>)
    requires |x| == |x'| == 16
    requires (IsProduct(p, x, y) && IsProduct(p', x', y) && IsProduct(q, Xor(x, x'), y))
          || (IsProduct(p, y, x) && IsProduct(p', y, x') && IsProduct(q, y, Xor(x, x')))
    ensures q == Xor(p, p')
  {
    hide PolyOf, GfMul, InField, Xor, Add;
    var px, px', py := PolyOf(x), PolyOf(x'), PolyOf(y);
    PolyOfInField(x);
    PolyOfInField(x');
    PolyOfInField(y);
    PolyOfInField(Xor(x, x'));
    PolyOfXor(x, x');
    PolyOfXor(p, p');
    GfMulAdd(px, px', py);
    GfMulCommutative(px, py);
    GfMulCommutative(px', py);
    GfMulCommutative(PolyOf(Xor(x, x')), py);
    PolyOfInjective(q, Xor(p, p'));
  }

  /** Products of three blocks may be grouped either way. */
  lemma ProductBlocksAssociate(x: seq<bv8>, y: seq<bv8>, z: seq<bv8>, xy: seq<bv8>, yz: seq<bv8>, p: seq<bv8>, q: seq<bv8>)
    requires IsProduct(xy, x, y) && IsProduct(yz, y, z) && IsProduct(p, xy, z) && IsProduct(q, x, yz)
    ensures p == q
  {
    hide PolyOf, GfMul, InField;
    PolyOfInField(x);
    PolyOfInField(y);
    PolyOfInField(z);
    GfMulAssociative(PolyOf(x), PolyOf(y), PolyOf(z));
    PolyOfInjective(p, q);
  }

  lemma AddInField(x: Poly, y: Poly)
    requires InField(x) && InField(y)
    ensures InField(Add(x, y))
  {}

  lemma GfMulZero(h: Poly)
    requires InField(h)
    ensures GfMul({}, h) == {}
  {
    hide GfMul;
    GfMulAdd({}, {}, h);
    AddZero({});
    AddZero(GfMul({}, h));
  }

  lemma GfMulOne(h: Poly)
    requires InField(h)
    ensures GfMul({0}, h) == h
  {
    hide ModMul;
    GcmPolyDegree();
    ModMulOne(h, GCM_POLY, 128);
  }

  // ----- GHASH

  lemma {:induction false} PowerInField(h: Poly, k: nat)
    requires InField(h)
    ensures InField(Power(h, k))
  {
    hide GfMul;
    if k > 0 {
      PowerInField(h, k - 1);
      GfMulIsFieldProduct(Power(h, k - 1), h);
    }
  }

  lemma {:induction false} EvaluateInField(data: seq<bv8>, n: nat, total: nat, h: Poly)
    requires 16 * n <= |data| && n <= total && InField(h)
    ensures InField(Evaluate(data, n, total, h))
  {
    hide GfMul, InField, Add, PolyOf, Power;
    if n == 0 {
      EmptyInField();
    } else {
      var b, p := Block(data, n - 1), Power(h, total - (n - 1));
      EvaluateInField(data, n - 1, total, h);
      PowerInField(h, total - (n - 1));
      PolyOfInField(data[16 * (n - 1)..16 * n]);
      GfMulIsFieldProduct(b, p);
      AddInField(Evaluate(data, n - 1, total, h), GfMul(b, p));
    }
  }

  lemma EmptyInField()
    ensures InField({})
  {}

  /** Multiplying the sum by h raises every exponent by one. */
  lemma {:induction false} EvaluateTimesH(data: seq<bv8>, n: nat, total: nat, h: Poly)
    requires 16 * n <= |data| && n <= total && InField(h)
    ensures GfMul(Evaluate(data, n, total, h), h) == Evaluate(data, n, total + 1, h)
  {
    hide GfMul, InField, Add, PolyOf;
    if n == 0 {
      GfMulZero(h);
    } else {
      var b, k := Block(data, n - 1), total - (n - 1);
      EvaluateTimesH(data, n - 1, total, h);
      EvaluateInField(data, n - 1, total, h);
      PowerInField(h, k);
      PolyOfInField(data[16 * (n - 1)..16 * n]);
      GfMulIsFieldProduct(b, Power(h, k));
      GfMulAdd(Evaluate(data, n - 1, total, h), GfMul(b, Power(h, k)), h);
      GfMulAssociative(b, Power(h, k), h);
    }
  }

  /** gHash is Horner's rule: over n blocks it evaluates
      X_0 h^n + X_1 h^(n-1) + ... + X_(n-1) h. */
  lemma {:induction false} HashIsHorner(data: seq<bv8>, n: nat, h: Poly)
    requires 16 * n <= |data| && InField(h)
    ensures HashBlocks(data, n, h) == Evaluate(data, n, n, h)
  {
    hide GfMul, InField, Add, PolyOf;
    if n > 0 {
      var b := Block(data, n - 1);
      HashIsHorner(data, n - 1, h);
      EvaluateInField(data, n - 1, n - 1, h);
      PolyOfInField(data[16 * (n - 1)..16 * n]);
      GfMulAdd(Evaluate(data, n - 1, n - 1, h), b, h);
      EvaluateTimesH(data, n - 1, n - 1, h);
      PowerOne(h);
    }
  }

  lemma PowerOne(h: Poly)
    requires InField(h)
    ensures Power(h, 1) == h
  {
    hide GfMul;
    assert Power(h, 0) == {0};
    GfMulOne(h);
  }

  lemma {:induction false} HashInField(data: seq<bv8>, n: nat, h: Poly)
    requires 16 * n <= |data| && InField(h)
    ensures InField(HashBlocks(data, n, h))
  {
    HashIsHorner(data, n, h);
    EvaluateInField(data, n, n, h);
  }

  lemma BlockXor(a: seq<bv8>, b: seq<bv8>, i: nat)
    requires |a| == |b| && 16 * i + 16 <= |a|
    ensures Block(Xor(a, b), i) == Add(Block(a, i), Block(b, i))
  {
    hide PolyOf;
    var x, y := a[16 * i..16 * i + 16], b[16 * i..16 * i + 16];
    PolyOfXor(x, y);
    assert Xor(a, b)[16 * i..16 * i + 16] == Xor(x, y);
  }

  /** GHASH is xor-linear in the data. */
  lemma {:induction false} HashIsLinear(a: seq<bv8>, b: seq<bv8>, n: nat, h: Poly)
    requires |a| == |b| && 16 * n <= |a| && InField(h)
    ensures HashBlocks(Xor(a, b), n, h) == Add(HashBlocks(a, n, h), HashBlocks(b, n, h))
  {
    hide GfMul, InField, Add, Block;
    if n == 0 {
      AddZero({});
    } else {
      HashIsLinear(a, b, n - 1, h);
      HashInField(a, n - 1, h);
      HashInField(b, n - 1, h);
      BlockInField(a, n - 1);
      BlockInField(b, n - 1);
      BlockXor(a, b, n - 1);
      var u, v := HashBlocks(a, n - 1, h), HashBlocks(b, n - 1, h);
      var x, y := Block(a, n - 1), Block(b, n - 1);
      AddInField(u, x);
      AddInField(v, y);
      GfMulAdd(Add(u, x), Add(v, y), h);
      AddMiddle(u, v, x, y);
    }
  }

  lemma BlockInField(a: seq<bv8>, i: nat)
    requires 16 * i + 16 <= |a|
    ensures InField(Block(a, i))
  {
    PolyOfInField(a[16 * i..16 * i + 16]);
  }

  lemma AddMiddle(u: Poly, v: Poly, x: Poly, y: Poly)
    ensures Add(Add(u, v), Add(x, y)) == Add(Add(u, x), Add(v, y))
  {}

  /** The bytes after the last full block have no influence: gHash drops a
      partial block. */
  lemma {:induction false} HashIgnoresTail(data: seq<bv8>, tail: seq<bv8>, n: nat, h: Poly)
    requires 16 * n <= |data|
    ensures HashBlocks(data + tail, n, h) == HashBlocks(data, n, h)
  {
    hide GfMul, Add, PolyOf;
    if n > 0 {
      HashIgnoresTail(data, tail, n - 1, h);
      assert (data + tail)[16 * (n - 1)..16 * (n - 1) + 16] == data[16 * (n - 1)..16 * (n - 1) + 16];
    }
  }

  method HashInto(data: seq<bv8>, key: seq<bv8>, out: array<bv8>)
    requires |key| == 16 && out.Length == 16
    modifies out
    ensures PolyOf(out[..]) == Hash(data, PolyOf(key))
  {
    hide PolyOf, GfMul, Add;
    for j := 0 to 16
      invariant forall t :: 0 <= t < j ==> out[t] == 0
    {
      out[j] := 0;
    }
    ZeroPoly(out[..]);
    var i := 0;
    while i < |data| / 16
      invariant 0 <= i <= |data| / 16
      invariant PolyOf(out[..]) == HashBlocks(data, i, PolyOf(key))
    {
      var block := data[16 * i..16 * i + 16];
      var tmp := Xor(out[..], block);
      PolyOfXor(out[..], block);
      GaloisMultiply(tmp, key, out);
      i := i + 1;
    }
  }
}
