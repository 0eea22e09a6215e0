/** Complementing both the key and the plain text complements the cipher text:
    every table only moves bits, and the round function sees the half and the
    subkey only through their exclusive or. */
module DesComplement {
  import opened Bytes
  import opened BitStrings
  import opened Des
  import opened DesKeys

  // ----- complements

  function Not(b: bv8): bv8 {
    b ^ 0xff
  }

  function Complement(s: seq<bv8>): (r: seq<bv8>)
    ensures |r| == |s|
  {
    seq(|s|, i requires 0 <= i < |s| => Not(s[i]))
  }

  function Flip(b: seq<bool>): (r: seq<bool>)
    ensures |r| == |b|
  {
    seq(|b|, i requires 0 <= i < |b| => !b[i])
  }

  lemma BitOfNot(b: bv8, j: nat)
    requires j < 8
    ensures Bit(Not(b), j) == !Bit(b, j)
  {
    if j == 0 {} else if j == 1 {} else if j == 2 {} else if j == 3 {}
    else if j == 4 {} else if j == 5 {} else if j == 6 {} else {}
  }

  lemma BitsOfComplement(s: seq<bv8>)
    ensures Bits(Complement(s)) == Flip(Bits(s))
  {
    hide Bit, Not;
    forall k | 0 <= k < 8 * |s| ensures Bits(Complement(s))[k] == Flip(Bits(s))[k] {
      BitOfNot(s[k / 8], k % 8);
    }
  }

  lemma FromFlippedBits(b: seq<bool>)
    requires |b| % 8 == 0
    ensures FromBits(Flip(b)) == Complement(FromBits(b))
  {
    hide Bits, FromBits, Flip, Complement;
    BitsOfComplement(FromBits(b));
    BitsOfFromBits(b);
    BitsOfFromBits(Flip(b));
    BitsInjective(FromBits(Flip(b)), Complement(FromBits(b)));
  }

  lemma PermuteComplement(s: seq<bv8>, table: seq<nat>)
    requires |table| % 8 == 0 && forall i :: 0 <= i < |table| ==> 1 <= table[i] <= 8 * |s|
    ensures PermuteBytes(Complement(s), table) == Complement(PermuteBytes(s, table))
  {
    hide Bits, FromBits, Complement;
    BitsOfComplement(s);
    assert Permute(Flip(Bits(s)), table) == Flip(Permute(Bits(s), table));
    FromFlippedBits(Permute(Bits(s), table));
  }

  lemma NotXor(a: bv8, b: bv8)
    ensures XorByte(Not(a), b) == Not(XorByte(a, b)) && XorByte(Not(a), Not(b)) == XorByte(a, b)
  {}

  lemma XorComplement(a: seq<bv8>, b: seq<bv8>)
    requires |a| == |b|
    ensures Xor(Complement(a), b) == Complement(Xor(a, b))
    ensures Xor(Complement(a), Complement(b)) == Xor(a, b)
  {
    hide Not, XorByte, Xor;
    forall i | 0 <= i < |a|
      ensures Xor(Complement(a), b)[i] == Complement(Xor(a, b))[i]
      ensures Xor(Complement(a), Complement(b))[i] == Xor(a, b)[i]
    {
      XorAt(a, b, i);
      XorAt(Complement(a), b, i);
      XorAt(Complement(a), Complement(b), i);
      NotXor(a[i], b[i]);
    }
  }

  lemma ComplementParts(b: Block, l: Half, r: Half)
    ensures Complement(b)[..4] == Complement(b[..4]) && Complement(b)[4..] == Complement(b[4..])
    ensures Complement(l) + Complement(r) == Complement(l + r)
  {}

  // ----- the round function

  type Six = s: seq<bv8> | |s| == 6 witness [0, 0, 0, 0, 0, 0]

  /** Row r of the expansion is four bits of the half between the bit before and the
      bit after them, counted round. */
  function ExpansionEntry(r: nat, c: nat): nat {
    (4 * r + c + 31) % 32 + 1
  }

  function Expansion(): (t: seq<nat>)
    ensures |t| == 48 && forall i :: 0 <= i < 48 ==> 1 <= t[i] <= 32
  {
    seq(48, i requires 0 <= i < 48 => ExpansionEntry(i / 6, i % 6))
  }

  lemma InRow(r: nat, c: nat)
    requires c < 6
    ensures (6 * r + c) / 6 == r && (6 * r + c) % 6 == c
  {}

  lemma ExpansionRow(r: nat)
    requires r < 8
    ensures Expansion()[6 * r..6 * r + 6] == [ExpansionEntry(r, 0), ExpansionEntry(r, 1), ExpansionEntry(r, 2),
                                              ExpansionEntry(r, 3), ExpansionEntry(r, 4), ExpansionEntry(r, 5)]
  {
    hide ExpansionEntry;
    InRow(r, 0); InRow(r, 1); InRow(r, 2); InRow(r, 3); InRow(r, 4); InRow(r, 5);
  }

  /** The table as the program lists it, for the first half of the bits. */
  lemma ExpansionRowsLeft()
    ensures Expansion()[0..6] == [32, 1, 2, 3, 4, 5] && Expansion()[6..12] == [4, 5, 6, 7, 8, 9]
    ensures Expansion()[12..18] == [8, 9, 10, 11, 12, 13] && Expansion()[18..24] == [12, 13, 14, 15, 16, 17]
  {
    hide Expansion;
    ExpansionRow(0); ExpansionRow(1); ExpansionRow(2); ExpansionRow(3);
  }

  /** And for the second half. */
  lemma ExpansionRowsRight()
    ensures Expansion()[24..30] == [16, 17, 18, 19, 20, 21] && Expansion()[30..36] == [20, 21, 22, 23, 24, 25]
    ensures Expansion()[36..42] == [24, 25, 26, 27, 28, 29] && Expansion()[42..48] == [28, 29, 30, 31, 32, 1]
  {
    hide Expansion;
    ExpansionRow(4); ExpansionRow(5); ExpansionRow(6); ExpansionRow(7);
  }

  /** f_function with its S-boxes and the permutation P taken together as g. */
  function Mix(g: Six -> Half, r: Half, key: Six): Half {
    g(Xor(PermuteBytes(r, Expansion()), key))
  }

  function RoundFunction(g: Six -> Half): (Half, Six) -> Half {
    (r, key) => Mix(g, r, key)
  }

  lemma MixComplement(g: Six -> Half, r: Half, key: Six)
    ensures Mix(g, Complement(r), Complement(key)) == Mix(g, r, key)
  {
    hide Complement, Xor, PermuteBytes, Expansion;
    PermuteComplement(r, Expansion());
    XorComplement(PermuteBytes(r, Expansion()), key);
  }

  // ----- the rounds and the block

  function ComplementAll(keys: seq<Six>): (r: seq<Six>)
    ensures |r| == |keys|
  {
    seq(|keys|, i requires 0 <= i < |keys| => Complement(keys[i]))
  }

  lemma {:induction false} RoundsComplement(g: Six -> Half, keys: seq<Six>, l: Half, r: Half)
    ensures var h := Rounds(RoundFunction(g), keys, l, r);
      Rounds(RoundFunction(g), ComplementAll(keys), Complement(l), Complement(r)) == (Complement(h.0), Complement(h.1))
    decreases |keys|
  {
    hide Complement, Xor, Mix;
    if keys != [] {
      MixComplement(g, r, keys[0]);
      XorComplement(l, Mix(g, r, keys[0]));
      assert ComplementAll(keys)[1..] == ComplementAll(keys[1..]);
      RoundsComplement(g, keys[1..], r, Xor(l, Mix(g, r, keys[0])));
    }
  }

  lemma BlockComplement(g: Six -> Half, keys: seq<Six>, block: Block)
    ensures Encrypt(RoundFunction(g), ComplementAll(keys), Complement(block))
         == Complement(Encrypt(RoundFunction(g), keys, block))
  {
    hide Complement, PermuteBytes, Ip, IpInv, ComplementAll, Rounds, RoundFunction;
    var ip := Initial(block);
    var h := Rounds(RoundFunction(g), keys, ip[..4], ip[4..]);
    PermuteComplement(block, Ip());
    ComplementParts(ip, h.1, h.0);
    RoundsComplement(g, keys, ip[..4], ip[4..]);
    var l: seq<bv8>, r: seq<bv8> := h.0, h.1;
    PermuteComplement(r + l, IpInv());
  }

  // ----- with the key schedule

  function SubkeyBytes(key: Block, i: nat): Six {
    FromBits(Subkey(Register(key), i))
  }

  function Subkeys(key: Block): (r: seq<Six>)
    ensures |r| == 16
  {
    seq(16, i requires 0 <= i < 16 => SubkeyBytes(key, i))
  }

  function DesBlock(g: Six -> Half, key: Block, block: Block): Block {
    Encrypt(RoundFunction(g), Subkeys(key), block)
  }

  lemma RegisterComplement(key: Block)
    ensures Register(Complement(key)) == Flip(Register(key))
  {
    hide Bits, Complement, Pc1;
    BitsOfComplement(key);
  }

  lemma SubkeyFlip(register: seq<bool>, i: nat)
    requires |register| == 56
    ensures Subkey(Flip(register), i) == Flip(Subkey(register, i))
  {
    hide Pc2, TotalShift;
    assert RotateHalves(Flip(register), TotalShift(i)) == Flip(RotateHalves(register, TotalShift(i)));
  }

  lemma SubkeysComplement(key: Block)
    ensures Subkeys(Complement(key)) == ComplementAll(Subkeys(key))
  {
    hide Complement, Register, Subkey, FromBits;
    RegisterComplement(key);
    forall i | 0 <= i < 16 ensures Subkeys(Complement(key))[i] == Complement(Subkeys(key)[i]) {
      SubkeyFlip(Register(key), i);
      FromFlippedBits(Subkey(Register(key), i));
    }
  }

  /** The complementation property, whatever the S-boxes. */
  lemma Complementation(g: Six -> Half, key: Block, block: Block)
    ensures DesBlock(g, Complement(key), Complement(block)) == Complement(DesBlock(g, key, block))
  {
    hide Complement, Subkeys, Encrypt, RoundFunction, ComplementAll;
    SubkeysComplement(key);
    BlockComplement(g, Subkeys(key), block);
  }

  /** The key's parity bits do not change the cipher. */
  lemma ParityBitsDoNotMatter(g: Six -> Half, a: Block, b: Block, block: Block)
    requires forall i :: 0 <= i < 64 && i % 8 != 7 ==> Bits(a)[i] == Bits(b)[i]
    ensures DesBlock(g, a, block) == DesBlock(g, b, block)
  {
    hide Bits, Register, Encrypt, RoundFunction;
    ParityBitsAreIgnored(a, b);
    assert Subkeys(a) == Subkeys(b);
  }
}
