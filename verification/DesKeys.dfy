/** The DES key schedule of des_cfb.cc: a 56-bit register, chosen from the key
    by the table pc1, whose two halves are rotated before every subkey is chosen
    from it by pc2. */
module DesKeys {
  import opened BitStrings
  import opened Des

  // ----- the tables

  /** Entry i of pc1: the columns of the key read upwards, without the last one, the
      fourth being split between the halves. */
  function Pc1Entry(i: nat): nat
    requires i < 56
  {
    if i < 28 then 57 - 8 * (i % 8) + i / 8
    else if i < 52 then 63 - 8 * ((i - 28) % 8) - (i - 28) / 8
    else 28 - 8 * (i - 52)
  }

  function Pc1(): (t: seq<nat>)
    ensures |t| == 56 && forall i :: 0 <= i < 56 ==> 1 <= t[i] <= 64
  {
    seq(56, i requires 0 <= i < 56 => Pc1Entry(i))
  }

  lemma Pc1Row(r: nat)
    requires r < 8
    ensures Pc1()[7 * r..7 * r + 7] == [Pc1Entry(7 * r), Pc1Entry(7 * r + 1), Pc1Entry(7 * r + 2), Pc1Entry(7 * r + 3),
                                        Pc1Entry(7 * r + 4), Pc1Entry(7 * r + 5), Pc1Entry(7 * r + 6)]
  {
    hide Pc1Entry;
  }

  /** The table as the program lists it, for the left half of the register. */
  lemma Pc1RowsLeft()
    ensures Pc1()[0..7] == [57, 49, 41, 33, 25, 17, 9] && Pc1()[7..14] == [1, 58, 50, 42, 34, 26, 18]
    ensures Pc1()[14..21] == [10, 2, 59, 51, 43, 35, 27] && Pc1()[21..28] == [19, 11, 3, 60, 52, 44, 36]
  {
    hide Pc1;
    Pc1Row(0); Pc1Row(1); Pc1Row(2); Pc1Row(3);
  }

  /** And for the right half. */
  lemma Pc1RowsRight()
    ensures Pc1()[28..35] == [63, 55, 47, 39, 31, 23, 15] && Pc1()[35..42] == [7, 62, 54, 46, 38, 30, 22]
    ensures Pc1()[42..49] == [14, 6, 61, 53, 45, 37, 29] && Pc1()[49..56] == [21, 13, 5, 28, 20, 12, 4]
  {
    hide Pc1;
    Pc1Row(4); Pc1Row(5); Pc1Row(6); Pc1Row(7);
  }

  ghost predicate AvoidsParity(t: seq<nat>) {
    forall i :: 0 <= i < |t| ==> t[i] % 8 != 0
  }

  lemma EntryAvoidsParity(i: nat)
    requires i < 56
    ensures Pc1Entry(i) % 8 != 0
  {
    if i < 28 {
      assert Pc1Entry(i) == 8 * (7 - i % 8) + (i / 8 + 1);
    } else if i < 52 {
      assert Pc1Entry(i) == 8 * (7 - (i - 28) % 8) + (7 - (i - 28) / 8);
    } else {
      assert Pc1Entry(i) == 8 * (55 - i) + 4;
    }
  }

  /** No entry of pc1 names the last bit of a byte. */
  lemma Pc1AvoidsParity()
    ensures AvoidsParity(Pc1())
  {
    hide Pc1Entry;
    forall i | 0 <= i < 56 ensures Pc1()[i] % 8 != 0 {
      EntryAvoidsParity(i);
    }
  }

  function Pc2(): (t: seq<nat>)
    ensures |t| == 48 && forall i :: 0 <= i < 48 ==> 1 <= t[i] <= 56
  {
    [14, 17, 11, 24, 1, 5, 3, 28] + [15, 6, 21, 10, 23, 19, 12, 4] + [26, 8, 16, 7, 27, 20, 13, 2]
    + [41, 52, 31, 37, 47, 55, 30, 40] + [51, 45, 33, 48, 44, 49, 39, 56] + [34, 53, 46, 42, 50, 36, 29, 32]
  }

  /** Where pc2 puts each bit of the register, counted from one; zero where it leaves
      the bit out. */
  function Pc2Place(): (t: seq<nat>)
    ensures |t| == 56
  {
    [5, 24, 7, 16, 6, 10, 20] + [18, 0, 12, 3, 15, 23, 1] + [9, 19, 2, 0, 14, 22, 11] + [0, 13, 4, 0, 17, 21, 8]
    + [47, 31, 27, 48, 35, 41, 0] + [46, 28, 0, 39, 32, 25, 44] + [0, 37, 34, 43, 29, 36, 38] + [45, 33, 26, 42, 0, 30, 40]
  }

  lemma Pc2Row0()
    ensures forall i :: 0 <= i < 8 ==> Pc2Place()[Pc2()[i] - 1] == i + 1
  {
    assert Pc2()[0] == 14 && Pc2Place()[13] == 1;
    assert Pc2()[1] == 17 && Pc2Place()[16] == 2;
    assert Pc2()[2] == 11 && Pc2Place()[10] == 3;
    assert Pc2()[3] == 24 && Pc2Place()[23] == 4;
    assert Pc2()[4] == 1 && Pc2Place()[0] == 5;
    assert Pc2()[5] == 5 && Pc2Place()[4] == 6;
    assert Pc2()[6] == 3 && Pc2Place()[2] == 7;
    assert Pc2()[7] == 28 && Pc2Place()[27] == 8;
  }

  lemma Pc2Row1()
    ensures forall i :: 8 <= i < 16 ==> Pc2Place()[Pc2()[i] - 1] == i + 1
  {
    assert Pc2()[8] == 15 && Pc2Place()[14] == 9;
    assert Pc2()[9] == 6 && Pc2Place()[5] == 10;
    assert Pc2()[10] == 21 && Pc2Place()[20] == 11;
    assert Pc2()[11] == 10 && Pc2Place()[9] == 12;
    assert Pc2()[12] == 23 && Pc2Place()[22] == 13;
    assert Pc2()[13] == 19 && Pc2Place()[18] == 14;
    assert Pc2()[14] == 12 && Pc2Place()[11] == 15;
    assert Pc2()[15] == 4 && Pc2Place()[3] == 16;
  }

  lemma Pc2Row2()
    ensures forall i :: 16 <= i < 24 ==> Pc2Place()[Pc2()[i] - 1] == i + 1
  {
    assert Pc2()[16] == 26 && Pc2Place()[25] == 17;
    assert Pc2()[17] == 8 && Pc2Place()[7] == 18;
    assert Pc2()[18] == 16 && Pc2Place()[15] == 19;
    assert Pc2()[19] == 7 && Pc2Place()[6] == 20;
    assert Pc2()[20] == 27 && Pc2Place()[26] == 21;
    assert Pc2()[21] == 20 && Pc2Place()[19] == 22;
    assert Pc2()[22] == 13 && Pc2Place()[12] == 23;
    assert Pc2()[23] == 2 && Pc2Place()[1] == 24;
  }

  lemma Pc2Row3()
    ensures forall i :: 24 <= i < 32 ==> Pc2Place()[Pc2()[i] - 1] == i + 1
  {
    assert Pc2()[24] == 41 && Pc2Place()[40] == 25;
    assert Pc2()[25] == 52 && Pc2Place()[51] == 26;
    assert Pc2()[26] == 31 && Pc2Place()[30] == 27;
    assert Pc2()[27] == 37 && Pc2Place()[36] == 28;
    assert Pc2()[28] == 47 && Pc2Place()[46] == 29;
    assert Pc2()[29] == 55 && Pc2Place()[54] == 30;
    assert Pc2()[30] == 30 && Pc2Place()[29] == 31;
    assert Pc2()[31] == 40 && Pc2Place()[39] == 32;
  }

  lemma Pc2Row4()
    ensures forall i :: 32 <= i < 40 ==> Pc2Place()[Pc2()[i] - 1] == i + 1
  {
    assert Pc2()[32] == 51 && Pc2Place()[50] == 33;
    assert Pc2()[33] == 45 && Pc2Place()[44] == 34;
    assert Pc2()[34] == 33 && Pc2Place()[32] == 35;
    assert Pc2()[35] == 48 && Pc2Place()[47] == 36;
    assert Pc2()[36] == 44 && Pc2Place()[43] == 37;
    assert Pc2()[37] == 49 && Pc2Place()[48] == 38;
    assert Pc2()[38] == 39 && Pc2Place()[38] == 39;
    assert Pc2()[39] == 56 && Pc2Place()[55] == 40;
  }

  lemma Pc2Row5()
    ensures forall i :: 40 <= i < 48 ==> Pc2Place()[Pc2()[i] - 1] == i + 1
  {
    assert Pc2()[40] == 34 && Pc2Place()[33] == 41;
    assert Pc2()[41] == 53 && Pc2Place()[52] == 42;
    assert Pc2()[42] == 46 && Pc2Place()[45] == 43;
    assert Pc2()[43] == 42 && Pc2Place()[41] == 44;
    assert Pc2()[44] == 50 && Pc2Place()[49] == 45;
    assert Pc2()[45] == 36 && Pc2Place()[35] == 46;
    assert Pc2()[46] == 29 && Pc2Place()[28] == 47;
    assert Pc2()[47] == 32 && Pc2Place()[31] == 48;
  }

  lemma Pc2Inverse()
    ensures forall i :: 0 <= i < 48 ==> Pc2Place()[Pc2()[i] - 1] == i + 1
  {
    hide Pc2, Pc2Place;
    Pc2Row0(); Pc2Row1(); Pc2Row2(); Pc2Row3(); Pc2Row4(); Pc2Row5();
  }

  lemma Pc2Halves()
    ensures forall i :: 0 <= i < 48 ==> (Pc2()[i] <= 28 <==> i < 24)
  {}

  lemma Pc2LeftOut()
    ensures Pc2Place()[8] == 0 && Pc2Place()[17] == 0 && Pc2Place()[21] == 0 && Pc2Place()[24] == 0
    ensures Pc2Place()[34] == 0 && Pc2Place()[37] == 0 && Pc2Place()[42] == 0 && Pc2Place()[53] == 0
  {}

  /** Pc2 takes 48 different bits of the register, 24 from each half, and leaves out
      eight. */
  lemma Pc2TakesEachBitOnce()
    ensures forall i, j :: 0 <= i < j < 48 ==> Pc2()[i] != Pc2()[j]
    ensures forall i :: 0 <= i < 48 ==> (Pc2()[i] <= 28 <==> i < 24) && Pc2()[i] !in {9, 18, 22, 25, 35, 38, 43, 54}
  {
    hide Pc2, Pc2Place;
    Pc2Inverse();
    Pc2Halves();
    Pc2LeftOut();
  }

  // ----- the register

  /** Both 28-bit halves of the register rotated left by n. */
  function RotateHalves(b: seq<bool>, n: nat): (r: seq<bool>)
    requires |b| == 56
    ensures |r| == 56
  {
    seq(56, i requires 0 <= i < 56 => if i < 28 then b[(i + n) % 28] else b[28 + (i - 28 + n) % 28])
  }

  lemma RotateAt(b: seq<bool>, n: nat, half: nat, i: nat)
    requires |b| == 56 && half < 2 && i < 28
    ensures RotateHalves(b, n)[28 * half + i] == b[28 * half + (i + n) % 28]
  {}

  lemma RotateCompose(b: seq<bool>, m: nat, n: nat)
    requires |b| == 56
    ensures RotateHalves(RotateHalves(b, m), n) == RotateHalves(b, m + n)
  {
    hide RotateHalves;
    forall k | 0 <= k < 56 ensures RotateHalves(RotateHalves(b, m), n)[k] == RotateHalves(b, m + n)[k] {
      var half, i := k / 28, k % 28;
      RotateAt(RotateHalves(b, m), n, half, i);
      RotateAt(b, m, half, (i + n) % 28);
      RotateAt(b, m + n, half, i);
      ModSum(i, n, m);
    }
  }

  lemma ModSum(i: nat, n: nat, m: nat)
    ensures ((i + n) % 28 + m) % 28 == (i + (m + n)) % 28
  {}

  lemma WholeTurns(b: seq<bool>)
    requires |b| == 56
    ensures RotateHalves(b, 0) == b && RotateHalves(b, 28) == b
  {}

  /** The register when the pass of key_shift has moved the first i bits. */
  function Moved(b: seq<bool>, i: nat): (r: seq<bool>)
    requires |b| == 56 && i < 56
    ensures |r| == 56
  {
    b[1..i + 1] + b[i..]
  }

  lemma MovedStep(b: seq<bool>, i: nat)
    requires |b| == 56 && i < 55
    ensures Moved(b, i)[i := Moved(b, i)[i + 1]] == Moved(b, i + 1)
  {}

  lemma MovedAll(b: seq<bool>)
    requires |b| == 56
    ensures Moved(b, 0) == b
    ensures Moved(b, 55)[27 := b[0]][55 := b[28]] == RotateHalves(b, 1)
  {}

  lemma GetBitIs(s: seq<bv8>, i: nat)
    requires i < 8 * |s|
    ensures GetBit(s, i) == Bits(s)[i]
  {}

  /** key_shift: one pass over all 56 bits, then the two bits that crossed a half
      are put right. */
  method KeyShift(key: array<bv8>)
    requires key.Length == 7
    modifies key
    ensures Bits(key[..]) == RotateHalves(Bits(old(key[..])), 1)
  {
    hide Bits, GetBit, RotateHalves, Moved;
    ghost var b := Bits(key[..]);
    MovedAll(b);
    var first := GetBit(key[..], 0);
    var middle := GetBit(key[..], 28);
    GetBitIs(key[..], 0);
    GetBitIs(key[..], 28);
    for i := 0 to 55
      invariant Bits(key[..]) == Moved(b, i)
    {
      GetBitIs(key[..], i + 1);
      MovedStep(b, i);
      SetBit(key, i, GetBit(key[..], i + 1));
    }
    SetBit(key, 27, first);
    SetBit(key, 55, middle);
  }

  function Shifts(i: nat): nat {
    if i == 0 || i == 1 || i == 8 || i == 15 then 1 else 2
  }

  /** The rotation of the register when subkey i is taken. */
  function TotalShift(i: nat): nat {
    Shifts(i) + if i == 0 then 0 else TotalShift(i - 1)
  }

  /** The rotations of the sixteen rounds, which turn the halves fully. */
  lemma SixteenRoundsTurnFully()
    ensures TotalShift(0) == 1 && TotalShift(1) == 2 && TotalShift(2) == 4 && TotalShift(3) == 6
    ensures TotalShift(4) == 8 && TotalShift(5) == 10 && TotalShift(6) == 12 && TotalShift(7) == 14
    ensures TotalShift(8) == 15 && TotalShift(9) == 17 && TotalShift(10) == 19 && TotalShift(11) == 21
    ensures TotalShift(12) == 23 && TotalShift(13) == 25 && TotalShift(14) == 27 && TotalShift(15) == 28
  {}

  // ----- the subkeys

  function Register(key: Block): (b: seq<bool>)
    ensures |b| == 56
  {
    Permute(Bits(key), Pc1())
  }

  function Subkey(register: seq<bool>, i: nat): (b: seq<bool>)
    requires |register| == 56
    ensures |b| == 48
  {
    Permute(RotateHalves(register, TotalShift(i)), Pc2())
  }

  /** Which bit of the key is bit j of subkey i: pc2 names a place of the register, the
      rotation the place in its half it came from, and pc1 the bit of the key. */
  lemma SubkeyBit(key: Block, i: nat, j: nat)
    requires i < 16 && j < 48
    ensures var p := Pc2()[j] - 1;
      var q := 28 * (p / 28) + (p % 28 + TotalShift(i)) % 28;
      q < 56 && Subkey(Register(key), i)[j] == Bits(key)[Pc1()[q] - 1]
  {
    hide Bits, Pc1, Pc2, TotalShift, RotateHalves;
    var p := Pc2()[j] - 1;
    RotateAt(Register(key), TotalShift(i), p / 28, p % 28);
  }

  /** generateSubkeys: subkey i is taken from the register rotated by the shifts
      of rounds 0 to i. */
  method GenerateSubkeys(key: Block) returns (subkeys: seq<seq<bv8>>)
    ensures |subkeys| == 16
    ensures forall i :: 0 <= i < 16 ==> |subkeys[i]| == 6 && Bits(subkeys[i]) == Subkey(Register(key), i)
  {
    hide Bits, RotateHalves, Permute, Pc1, Pc2, TotalShift, Register;
    var keyP := new bv8[7];
    PermuteInto(key, Pc1(), keyP);
    ghost var register := Register(key);
    RegisterIs(key);
    WholeTurns(register);
    subkeys := [];
    for i := 0 to 16
      invariant |subkeys| == i
      invariant Bits(keyP[..]) == RotateHalves(register, if i == 0 then 0 else TotalShift(i - 1))
      invariant forall k :: 0 <= k < i ==> |subkeys[k]| == 6 && Bits(subkeys[k]) == Subkey(register, k)
    {
      ghost var was := if i == 0 then 0 else TotalShift(i - 1);
      TotalShiftStep(i);
      KeyShift(keyP);
      RotateCompose(register, was, 1);
      if i != 0 && i != 1 && i != 8 && i != 15 {
        KeyShift(keyP);
        RotateCompose(register, was + 1, 1);
      }
      var sub := new bv8[6];
      PermuteInto(keyP[..], Pc2(), sub);
      subkeys := subkeys + [sub[..]];
    }
  }

  lemma RegisterIs(key: Block)
    ensures Register(key) == Permute(Bits(key), Pc1())
  {}

  lemma TotalShiftStep(i: nat)
    ensures TotalShift(i) == Shifts(i) + if i == 0 then 0 else TotalShift(i - 1)
  {}

  // ----- properties of the schedule

  /** The register rotated right by the shifts of rounds 15, 14, ..., 16 - j. */
  function RotatedBack(register: seq<bool>, j: nat): (r: seq<bool>)
    requires |register| == 56 && j <= 15
    ensures |r| == 56
  {
    if j == 0 then register else RotateHalves(RotatedBack(register, j - 1), 28 - Shifts(16 - j))
  }

  /** The subkeys last to first need no second register: sixteen rounds turn it
      fully, so rotating right from the start gives them in reverse. */
  lemma {:induction false} ReversedSchedule(register: seq<bool>, j: nat)
    requires |register| == 56 && j <= 15
    ensures Permute(RotatedBack(register, j), Pc2()) == Subkey(register, 15 - j)
    ensures RotatedBack(register, j) == RotateHalves(register, TotalShift(15 - j))
  {
    hide RotateHalves, Permute, Pc2;
    if j == 0 {
      SixteenRoundsTurnFully();
      WholeTurns(register);
    } else {
      ReversedSchedule(register, j - 1);
      RotateCompose(register, TotalShift(16 - j), 28 - Shifts(16 - j));
      RotateCompose(register, TotalShift(15 - j), 28);
      WholeTurns(RotateHalves(register, TotalShift(15 - j)));
    }
  }

  /** The last bit of every key byte has no effect. */
  lemma ParityBitsAreIgnored(a: Block, b: Block)
    requires forall i :: 0 <= i < 64 && i % 8 != 7 ==> Bits(a)[i] == Bits(b)[i]
    ensures Register(a) == Register(b)
  {
    hide Bits, Pc1, AvoidsParity;
    forall j | 0 <= j < 56 ensures Register(a)[j] == Register(b)[j] {
      NotLastOfByte(j);
    }
  }

  lemma NotLastOfByte(j: nat)
    requires j < 56
    ensures (Pc1()[j] - 1) % 8 != 7
  {
    hide Pc1;
    Pc1AvoidsParity();
  }
}
