/** Polynomials over GF(2), each written as the set of exponents whose
    coefficient is one, and arithmetic modulo a fixed polynomial.  Both finite
    fields of the crypto programs (GF(2^128) of GCM, GF(2^8) of AES) are
    instances. */
module Gf2Poly {

  type Poly = set<nat>

  function Add(p: Poly, q: Poly): Poly {
    (p - q) + (q - p)
  }

  /** p times x^k */
  function Shift(p: Poly, k: nat): (r: Poly)
    ensures forall x: nat :: x in r <==> x >= k && x - k in p
  {
    set e | e in p :: e + k
  }

  /** The product of two polynomials: one shifted copy of q per term of p. */
  ghost function Mul(p: Poly, q: Poly): Poly
    decreases |p|
  {
    if p == {} then {} else
      var e :| e in p;
      Add(Shift(q, e), Mul(p - {e}, q))
  }

  ghost predicate DegreeBelow(p: Poly, d: nat) {
    forall e :: e in p ==> e < d
  }

  /** m has degree d */
  ghost predicate Degree(m: Poly, d: nat) {
    d in m && DegreeBelow(m, d + 1)
  }

  /** p and q differ by a multiple of m */
  ghost predicate Congruent(p: Poly, q: Poly, m: Poly) {
    exists t: Poly :: Add(p, q) == Mul(t, m)
  }

  // ----- the ring of polynomials

  lemma AddSwap(a: Poly, b: Poly, c: Poly)
    ensures Add(a, Add(b, c)) == Add(b, Add(a, c))
  {}

  lemma AddAssociative(a: Poly, b: Poly, c: Poly)
    ensures Add(Add(a, b), c) == Add(a, Add(b, c))
  {}

  lemma AddZero(a: Poly)
    ensures Add(a, {}) == a && Add({}, a) == a && Add(a, a) == {}
  {}

  lemma ShiftAdd(a: Poly, b: Poly, k: nat)
    ensures Shift(Add(a, b), k) == Add(Shift(a, k), Shift(b, k))
  {}

  lemma ShiftShift(a: Poly, j: nat, k: nat)
    ensures Shift(Shift(a, j), k) == Shift(a, j + k)
  {}

  /** The choice of term made by Mul does not matter. */
  lemma {:induction false} MulRemove(p: Poly, q: Poly, e: nat)
    requires e in p
    ensures Mul(p, q) == Add(Shift(q, e), Mul(p - {e}, q))
    decreases |p|
  {
    var f :| f in p && Mul(p, q) == Add(Shift(q, f), Mul(p - {f}, q));
    if f != e {
      MulRemove(p - {f}, q, e);
      MulRemove(p - {e}, q, f);
      assert p - {f} - {e} == p - {e} - {f};
      AddSwap(Shift(q, e), Shift(q, f), Mul(p - {e} - {f}, q));
    }
  }

  lemma MulToggle(p: Poly, e: nat, q: Poly)
    ensures Mul(Add(p, {e}), q) == Add(Mul(p, q), Shift(q, e))
  {
    if e in p {
      MulRemove(p, q, e);
      assert Add(p, {e}) == p - {e};
    } else {
      MulRemove(Add(p, {e}), q, e);
      assert Add(p, {e}) - {e} == p;
    }
  }

  lemma MulMonomial(e: nat, q: Poly)
    ensures Mul({e}, q) == Shift(q, e)
  {
    MulRemove({e}, q, e);
    assert {e} - {e} == {};
  }

  lemma {:induction false} MulAddLeft(p: Poly, p': Poly, q: Poly)
    ensures Mul(Add(p, p'), q) == Add(Mul(p, q), Mul(p', q))
    decreases |p'|
  {
    if p' == {} {
      AddZero(p);
      AddZero(Mul(p, q));
    } else {
      var e :| e in p';
      var r := p' - {e};
      assert Add(r, {e}) == p';
      calc {
        Mul(Add(p, p'), q);
        { AddAssociative(p, r, {e}); }
        Mul(Add(Add(p, r), {e}), q);
        { MulToggle(Add(p, r), e, q); }
        Add(Mul(Add(p, r), q), Shift(q, e));
        { MulAddLeft(p, r, q); }
        Add(Add(Mul(p, q), Mul(r, q)), Shift(q, e));
        { AddAssociative(Mul(p, q), Mul(r, q), Shift(q, e)); }
        Add(Mul(p, q), Add(Mul(r, q), Shift(q, e)));
        { MulToggle(r, e, q); }
        Add(Mul(p, q), Mul(p', q));
      }
    }
  }

  lemma {:induction false} MulAddRight(p: Poly, q: Poly, q': Poly)
    ensures Mul(p, Add(q, q')) == Add(Mul(p, q), Mul(p, q'))
    decreases |p|
  {
    if p != {} {
      var e :| e in p;
      MulAddRight(p - {e}, q, q');
      MulRemove(p, Add(q, q'), e);
      MulRemove(p, q, e);
      MulRemove(p, q', e);
      assert Shift(Add(q, q'), e) == Add(Shift(q, e), Shift(q', e));
    }
  }

  lemma {:induction false} MulShiftRight(p: Poly, q: Poly, k: nat)
    ensures Mul(p, Shift(q, k)) == Shift(Mul(p, q), k)
    decreases |p|
  {
    if p == {} {
      assert Shift(Mul(p, q), k) == {};
    } else {
      var e :| e in p;
      MulShiftRight(p - {e}, q, k);
      MulRemove(p, Shift(q, k), e);
      MulRemove(p, q, e);
      ShiftShift(q, k, e);
      ShiftShift(q, e, k);
      ShiftAdd(Shift(q, e), Mul(p - {e}, q), k);
    }
  }

  lemma MulEmpty(p: Poly)
    ensures Mul(p, {}) == {}
  {
    MulAddRight(p, {}, {});
    assert Add({}, {}) == {};
  }

  lemma ShiftRemove(q: Poly, f: nat, e: nat)
    requires f in q
    ensures Shift(q, e) == Add(Shift({e}, f), Shift(q - {f}, e))
  {
    assert Shift({e}, f) == {e + f};
  }

  lemma {:induction false} MulByMonomial(q: Poly, e: nat)
    ensures Mul(q, {e}) == Shift(q, e)
    decreases |q|
  {
    if q == {} {
      assert Shift(q, e) == {};
    } else {
      var f :| f in q;
      MulByMonomial(q - {f}, e);
      MulRemove(q, {e}, f);
      ShiftRemove(q, f, e);
    }
  }

  lemma {:induction false} MulCommutative(p: Poly, q: Poly)
    ensures Mul(p, q) == Mul(q, p)
    decreases |p|
  {
    if p == {} {
      MulEmpty(q);
    } else {
      var e :| e in p;
      MulCommutative(p - {e}, q);
      MulRemove(p, q, e);
      MulAddRight(q, {e}, p - {e});
      MulByMonomial(q, e);
      assert Add({e}, p - {e}) == p;
    }
  }

  lemma {:induction false} MulAssociative(p: Poly, q: Poly, r: Poly)
    ensures Mul(Mul(p, q), r) == Mul(p, Mul(q, r))
    decreases |p|
  {
    if p == {} {
      assert Mul({}, r) == {};
    } else {
      var e :| e in p;
      MulAssociative(p - {e}, q, r);
      MulRemove(p, q, e);
      MulRemove(p, Mul(q, r), e);
      MulAddLeft(Shift(q, e), Mul(p - {e}, q), r);
      MulCommutative(Shift(q, e), r);
      MulShiftRight(r, q, e);
      MulCommutative(r, q);
    }
  }

  // ----- congruence modulo m

  lemma CongruentRefl(p: Poly, m: Poly)
    ensures Congruent(p, p, m)
  {
    assert Add(p, p) == Mul({}, m);
  }

  lemma CongruentSym(p: Poly, q: Poly, m: Poly)
    requires Congruent(p, q, m)
    ensures Congruent(q, p, m)
  {
    assert Add(p, q) == Add(q, p);
  }

  lemma CongruentAdd(p: Poly, p': Poly, q: Poly, q': Poly, m: Poly)
    requires Congruent(p, p', m) && Congruent(q, q', m)
    ensures Congruent(Add(p, q), Add(p', q'), m)
  {
    var s: Poly :| Add(p, p') == Mul(s, m);
    var t: Poly :| Add(q, q') == Mul(t, m);
    MulAddLeft(s, t, m);
    assert Add(Add(p, q), Add(p', q')) == Add(Add(p, p'), Add(q, q'));
    assert Add(Add(p, q), Add(p', q')) == Mul(Add(s, t), m);
  }

  lemma CongruentTrans(p: Poly, q: Poly, r: Poly, m: Poly)
    requires Congruent(p, q, m) && Congruent(q, r, m)
    ensures Congruent(p, r, m)
  {
    CongruentAdd(p, q, q, r, m);
    var t: Poly :| Add(Add(p, q), Add(q, r)) == Mul(t, m);
    assert Add(p, r) == Add(Add(p, q), Add(q, r));
  }

  lemma CongruentMulRight(p: Poly, p': Poly, q: Poly, m: Poly)
    requires Congruent(p, p', m)
    ensures Congruent(Mul(p, q), Mul(p', q), m)
  {
    var t: Poly :| Add(p, p') == Mul(t, m);
    MulAddLeft(p, p', q);
    MulAssociative(t, m, q);
    MulCommutative(m, q);
    MulAssociative(t, q, m);
    assert Add(Mul(p, q), Mul(p', q)) == Mul(Mul(t, q), m);
  }

  lemma CongruentMulLeft(p: Poly, q: Poly, q': Poly, m: Poly)
    requires Congruent(q, q', m)
    ensures Congruent(Mul(p, q), Mul(p, q'), m)
  {
    CongruentMulRight(q, q', p, m);
    MulCommutative(q, p);
    MulCommutative(q', p);
  }

  lemma {:induction false} MulDegree(t: Poly, m: Poly, k: nat, d: nat)
    requires DegreeBelow(t, k) && DegreeBelow(m, d + 1)
    ensures DegreeBelow(Mul(t, m), k + d)
    decreases |t|
  {
    if t != {} {
      var e :| e in t;
      MulDegree(t - {e}, m, k, d);
      MulRemove(t, m, e);
    }
  }

  lemma {:induction false} HasMax(t: Poly) returns (k: nat)
    requires t != {}
    ensures k in t && DegreeBelow(t, k + 1)
    decreases |t|
  {
    var i :| i in t;
    if t == {i} {
      k := i;
    } else {
      var j := HasMax(t - {i});
      k := if j > i then j else i;
      assert forall e :: e in t ==> e == i || e in t - {i};
    }
  }

  lemma MultipleHasTopTerm(t: Poly, m: Poly, d: nat)
    requires Degree(m, d) && t != {}
    ensures !DegreeBelow(Mul(t, m), d)
  {
    var k := HasMax(t);
    MulRemove(t, m, k);
    MulDegree(t - {k}, m, k, d);
    assert k + d in Shift(m, k);
    assert k + d in Mul(t, m);
  }

  /** A multiple of m other than zero has degree at least that of m, so a
      residue below that degree is unique. */
  lemma ResidueUnique(z: Poly, z': Poly, m: Poly, d: nat)
    requires Degree(m, d) && DegreeBelow(z, d) && DegreeBelow(z', d)
    requires Congruent(z, z', m)
    ensures z == z'
  {
    var t: Poly :| Add(z, z') == Mul(t, m);
    assert t == {} by {
      if t != {} {
        MultipleHasTopTerm(t, m, d);
      }
    }
    assert Add(z, z') == {};
    assert forall e :: e !in Add(z, z');
  }

  // ----- residues: the arithmetic the code performs

  /** Multiplication of a residue by x: shift, then subtract m when the degree
      overflowed. */
  function TimesX(v: Poly, m: Poly, d: nat): Poly {
    var s := Shift(v, 1);
    if d in s then Add(s, m) else s
  }

  /** Shift-and-add: the running value v is multiplied by x once per exponent,
      and added whenever the exponent is present in x. */
  function ShiftAndAdd(x: Poly, y: Poly, m: Poly, d: nat, n: nat): Poly
  {
    if n == 0 then {}
    else
      var z := ShiftAndAdd(x, y, m, d, n - 1);
      if n - 1 in x then Add(z, Powers(y, m, d, n - 1)) else z
  }

  /** y times x^n, reduced */
  function Powers(y: Poly, m: Poly, d: nat, n: nat): Poly {
    if n == 0 then y else TimesX(Powers(y, m, d, n - 1), m, d)
  }

  /** The product of residues modulo m (of degree d). */
  function ModMul(x: Poly, y: Poly, m: Poly, d: nat): Poly {
    ShiftAndAdd(x, y, m, d, d)
  }

  lemma CongruentPlusModulus(s: Poly, m: Poly)
    ensures Congruent(s, Add(s, m), m)
  {
    MulMonomial(0, m);
    assert Shift(m, 0) == m;
    AddAssociative(s, s, m);
    AddZero(s);
    AddZero(m);
    assert Add(s, Add(s, m)) == Mul({0}, m);
  }

  lemma TimesXDegree(v: Poly, m: Poly, d: nat)
    requires Degree(m, d) && DegreeBelow(v, d)
    ensures DegreeBelow(TimesX(v, m, d), d)
  {
    var s := Shift(v, 1);
    assert DegreeBelow(s, d + 1);
    forall e | e in TimesX(v, m, d) ensures e < d {
      assert e in s || e in m;
      assert e != d;
    }
  }

  lemma TimesXCorrect(v: Poly, m: Poly, d: nat)
    requires Degree(m, d) && DegreeBelow(v, d)
    ensures DegreeBelow(TimesX(v, m, d), d)
    ensures Congruent(Shift(v, 1), TimesX(v, m, d), m)
  {
    TimesXDegree(v, m, d);
    if d in Shift(v, 1) {
      CongruentPlusModulus(Shift(v, 1), m);
    } else {
      CongruentRefl(Shift(v, 1), m);
    }
  }

  lemma {:induction false} PowersCorrect(y: Poly, m: Poly, d: nat, n: nat)
    requires Degree(m, d) && DegreeBelow(y, d)
    ensures DegreeBelow(Powers(y, m, d, n), d)
    ensures Congruent(Shift(y, n), Powers(y, m, d, n), m)
  {
    hide TimesX, Congruent, DegreeBelow, Degree, Mul;
    if n == 0 {
      assert Shift(y, 0) == y;
      CongruentRefl(y, m);
    } else {
      PowersCorrect(y, m, d, n - 1);
      var v := Powers(y, m, d, n - 1);
      TimesXCorrect(v, m, d);
      CongruentMulLeft({1}, Shift(y, n - 1), v, m);
      MulMonomial(1, Shift(y, n - 1));
      MulMonomial(1, v);
      ShiftShift(y, n - 1, 1);
      CongruentTrans(Shift(y, n), Shift(v, 1), TimesX(v, m, d), m);
    }
  }

  ghost function Below(x: Poly, n: nat): Poly {
    set e | e in x && e < n
  }

  lemma MulByZero(y: Poly)
    ensures Mul({}, y) == {}
  {}

  lemma DegreeOfZero(d: nat)
    ensures DegreeBelow({}, d)
  {}

  lemma DegreeOfSum(p: Poly, q: Poly, d: nat)
    requires DegreeBelow(p, d) && DegreeBelow(q, d)
    ensures DegreeBelow(Add(p, q), d)
  {}

  lemma {:induction false} ShiftAndAddCorrect(x: Poly, y: Poly, m: Poly, d: nat, n: nat)
    requires Degree(m, d) && DegreeBelow(y, d)
    ensures DegreeBelow(ShiftAndAdd(x, y, m, d, n), d)
    ensures Congruent(Mul(Below(x, n), y), ShiftAndAdd(x, y, m, d, n), m)
  {
    hide Powers, Congruent, DegreeBelow, Degree, Mul;
    if n == 0 {
      assert Below(x, 0) == {};
      MulByZero(y);
      CongruentRefl({}, m);
      DegreeOfZero(d);
    } else {
      ShiftAndAddCorrect(x, y, m, d, n - 1);
      if n - 1 in x {
        PowersCorrect(y, m, d, n - 1);
        assert Below(x, n) == Add(Below(x, n - 1), {n - 1});
        MulToggle(Below(x, n - 1), n - 1, y);
        CongruentAdd(Mul(Below(x, n - 1), y), ShiftAndAdd(x, y, m, d, n - 1),
                     Shift(y, n - 1), Powers(y, m, d, n - 1), m);
        DegreeOfSum(ShiftAndAdd(x, y, m, d, n - 1), Powers(y, m, d, n - 1), d);
      } else {
        assert Below(x, n) == Below(x, n - 1);
      }
    }
  }

  /** ModMul is multiplication modulo m: its result is the one polynomial of
      degree below d that is congruent to the product. */
  lemma ModMulIsProductModM(x: Poly, y: Poly, m: Poly, d: nat)
    requires Degree(m, d) && DegreeBelow(x, d) && DegreeBelow(y, d)
    ensures DegreeBelow(ModMul(x, y, m, d), d)
    ensures Congruent(Mul(x, y), ModMul(x, y, m, d), m)
    ensures forall z :: DegreeBelow(z, d) && Congruent(Mul(x, y), z, m) ==> z == ModMul(x, y, m, d)
  {
    ShiftAndAddCorrect(x, y, m, d, d);
    assert Below(x, d) == x;
    var r := ModMul(x, y, m, d);
    forall z | DegreeBelow(z, d) && Congruent(Mul(x, y), z, m)
      ensures z == r
    {
      CongruentSym(Mul(x, y), z, m);
      CongruentTrans(z, Mul(x, y), r, m);
      ResidueUnique(z, r, m, d);
    }
  }

  lemma ModMulCommutative(x: Poly, y: Poly, m: Poly, d: nat)
    requires Degree(m, d) && DegreeBelow(x, d) && DegreeBelow(y, d)
    ensures ModMul(x, y, m, d) == ModMul(y, x, m, d)
  {
    ModMulIsProductModM(x, y, m, d);
    ModMulIsProductModM(y, x, m, d);
    MulCommutative(x, y);
  }

  lemma ModMulAssociative(x: Poly, y: Poly, z: Poly, m: Poly, d: nat)
    requires Degree(m, d) && DegreeBelow(x, d) && DegreeBelow(y, d) && DegreeBelow(z, d)
    ensures ModMul(ModMul(x, y, m, d), z, m, d) == ModMul(x, ModMul(y, z, m, d), m, d)
  {
    ModMulIsProductModM(x, y, m, d);
    ModMulIsProductModM(y, z, m, d);
    var xy, yz := ModMul(x, y, m, d), ModMul(y, z, m, d);
    ModMulIsProductModM(xy, z, m, d);
    ModMulIsProductModM(x, yz, m, d);
    CongruentMulRight(Mul(x, y), xy, z, m);
    CongruentMulLeft(x, Mul(y, z), yz, m);
    MulAssociative(x, y, z);
    var l, r := ModMul(xy, z, m, d), ModMul(x, yz, m, d);
    CongruentTrans(Mul(Mul(x, y), z), Mul(xy, z), l, m);
    CongruentTrans(Mul(Mul(x, y), z), Mul(x, yz), r, m);
    CongruentSym(Mul(Mul(x, y), z), l, m);
    CongruentTrans(l, Mul(Mul(x, y), z), r, m);
    ResidueUnique(l, r, m, d);
  }

  lemma ModMulAddLeft(x: Poly, x': Poly, y: Poly, m: Poly, d: nat)
    requires Degree(m, d) && DegreeBelow(x, d) && DegreeBelow(x', d) && DegreeBelow(y, d)
    ensures ModMul(Add(x, x'), y, m, d) == Add(ModMul(x, y, m, d), ModMul(x', y, m, d))
  {
    ModMulIsProductModM(x, y, m, d);
    ModMulIsProductModM(x', y, m, d);
    ModMulIsProductModM(Add(x, x'), y, m, d);
    MulAddLeft(x, x', y);
    CongruentAdd(Mul(x, y), ModMul(x, y, m, d), Mul(x', y), ModMul(x', y, m, d), m);
  }

  lemma ModMulOne(y: Poly, m: Poly, d: nat)
    requires Degree(m, d) && 0 < d && DegreeBelow(y, d)
    ensures ModMul({0}, y, m, d) == y
  {
    ModMulIsProductModM({0}, y, m, d);
    MulMonomial(0, y);
    assert Shift(y, 0) == y;
    CongruentRefl(y, m);
  }
}
