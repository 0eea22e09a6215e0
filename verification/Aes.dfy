/** The AES rounds of aes_cbc.cc: the four in-place steps on the 16-byte state,
    the round loop for any number of rounds and any round keys, and the inverse
    cipher (section 5.3 of FIPS 197), which the programs do not contain. */
module Aes {
  import opened Bytes
  import opened AesField
  import opened AesSbox

  type Block = b: seq<bv8> | |b| == 16 witness [0, 0, 0, 0, 0, 0, 0, 0, 0, 0, 0, 0, 0, 0, 0, 0]

  // ----- the steps and their inverses

  function SubBytes(s: Block): Block {
    seq(16, i requires 0 <= i < 16 => SubByte(s[i]))
  }

  function InvSubBytes(s: Block): Block {
    seq(16, i requires 0 <= i < 16 => InvSubByte(s[i]))
  }

  /** Row r of the state (bytes r, r + 4, r + 8, r + 12) moves r columns left. */
  function ShiftRows(s: Block): Block {
    seq(16, i requires 0 <= i < 16 => s[(i + 4 * (i % 4)) % 16])
  }

  function InvShiftRows(s: Block): Block {
    seq(16, i requires 0 <= i < 16 => s[(i + 16 - 4 * (i % 4)) % 16])
  }

  /** Addition in the field, named so that proofs can treat it abstractly. */
  function Sum4(a: bv8, b: bv8, c: bv8, d: bv8): bv8 {
    XorByte(XorByte(XorByte(a, b), c), d)
  }

  /** The first byte of a mixed column; the others follow by rotation. */
  function MixEntry(a: bv8, b: bv8, c: bv8, d: bv8): bv8 {
    Sum4(Gf(2, a), Gf(3, b), Gf(1, c), Gf(1, d))
  }

  function InvMixEntry(a: bv8, b: bv8, c: bv8, d: bv8): bv8 {
    Sum4(Gf(14, a), Gf(11, b), Gf(13, c), Gf(9, d))
  }

  function MixColumn(a: bv8, b: bv8, c: bv8, d: bv8): (r: seq<bv8>)
    ensures |r| == 4
  {
    [MixEntry(a, b, c, d), MixEntry(b, c, d, a), MixEntry(c, d, a, b), MixEntry(d, a, b, c)]
  }

  function InvMixColumn(a: bv8, b: bv8, c: bv8, d: bv8): (r: seq<bv8>)
    ensures |r| == 4
  {
    [InvMixEntry(a, b, c, d), InvMixEntry(b, c, d, a), InvMixEntry(c, d, a, b), InvMixEntry(d, a, b, c)]
  }

  function MixColumns(s: Block): Block {
    MixColumn(s[0], s[1], s[2], s[3]) + MixColumn(s[4], s[5], s[6], s[7])
    + MixColumn(s[8], s[9], s[10], s[11]) + MixColumn(s[12], s[13], s[14], s[15])
  }

  function InvMixColumns(s: Block): Block {
    InvMixColumn(s[0], s[1], s[2], s[3]) + InvMixColumn(s[4], s[5], s[6], s[7])
    + InvMixColumn(s[8], s[9], s[10], s[11]) + InvMixColumn(s[12], s[13], s[14], s[15])
  }

  // ----- the inverse of each step

  lemma SubBytesInverse(s: Block)
    ensures InvSubBytes(SubBytes(s)) == s
  {
    hide SubByte, InvSubByte;
    forall i | 0 <= i < 16 ensures InvSubBytes(SubBytes(s))[i] == s[i] {
      SboxInverse(s[i]);
    }
  }

  lemma ShiftRowsInverse(s: Block)
    ensures InvShiftRows(ShiftRows(s)) == s
  {
    forall i | 0 <= i < 16 ensures InvShiftRows(ShiftRows(s))[i] == s[i] {
      RowIndex(i);
    }
  }

  lemma RowIndex(i: nat)
    requires i < 16
    ensures var j := (i + 16 - 4 * (i % 4)) % 16; (j + 4 * (j % 4)) % 16 == i
  {}

  // ----- the column mix, by repeated doubling

  lemma GfPlus(j: bv8, k: bv8, a: bv8)
    ensures Gf(j ^ k, a) == XorByte(Gf(j, a), Gf(k, a))
  {
    hide Gf;
    GfDistributes(j, k, a);
  }

  /** (2 k) a = 2 (k a) */
  lemma Doubling(k: bv8, a: bv8)
    ensures Gf(Xtime(k), a) == Xtime(Gf(k, a))
  {
    hide Gf, Xtime;
    GfTwo(k);
    GfAssociative(2, k, a);
    GfTwo(Gf(k, a));
  }

  lemma SmallMultiples(a: bv8)
    ensures Gf(1, a) == a && Gf(2, a) == Xtime(a) && Gf(4, a) == Xtime(Xtime(a))
    ensures Gf(8, a) == Xtime(Xtime(Xtime(a)))
  {
    hide Gf;
    GfOne(a);
    GfTwo(a);
    Doubling(2, a);
    Doubling(4, a);
    assert Xtime(2) == 4 && Xtime(4) == 8;
  }

  /** The multiples used by the two column mixes. */
  lemma Multiples(a: bv8)
    ensures var a2 := Xtime(a); var a4 := Xtime(a2); var a8 := Xtime(a4);
      && Gf(1, a) == a && Gf(2, a) == a2 && Gf(3, a) == XorByte(a2, a)
      && Gf(9, a) == XorByte(a8, a) && Gf(11, a) == XorByte(XorByte(a8, a2), a)
      && Gf(13, a) == XorByte(XorByte(a8, a4), a) && Gf(14, a) == XorByte(XorByte(a8, a4), a2)
  {
    hide Gf, Xtime, XorByte;
    SmallMultiples(a);
    GfPlus(2, 1, a);
    GfPlus(8, 1, a);
    GfPlus(8, 2, a);
    GfPlus(10, 1, a);
    GfPlus(8, 4, a);
    GfPlus(12, 1, a);
    GfPlus(12, 2, a);
  }

  /** XorByte works bit by bit, so its laws are laws of exclusive or. */
  lemma BitOfPlus(j: nat)
    requires j < 8
    ensures forall x: bv8, y: bv8 :: Bit(XorByte(x, y), j) == (Bit(x, j) != Bit(y, j))
    ensures !Bit(0, j)
  {
    ZeroBit(j);
    hide Bit;
    forall x: bv8, y: bv8 ensures Bit(XorByte(x, y), j) == (Bit(x, j) != Bit(y, j)) {
      BitXor(x, y, j);
    }
  }

  lemma ZeroBit(j: nat)
    requires j < 8
    ensures !Bit(0, j)
  {}

  lemma PlusInterchange(a: bv8, b: bv8, c: bv8, d: bv8)
    ensures XorByte(XorByte(a, b), XorByte(c, d)) == XorByte(XorByte(a, c), XorByte(b, d))
  {
    hide Bit, XorByte;
    var l, r := XorByte(XorByte(a, b), XorByte(c, d)), XorByte(XorByte(a, c), XorByte(b, d));
    forall j | 0 <= j < 8 ensures Bit(l, j) == Bit(r, j) {
      BitOfPlus(j);
    }
    BitsDetermine(l, r);
  }

  lemma Sum4Rotate(a: bv8, b: bv8, c: bv8, d: bv8)
    ensures Sum4(a, b, c, d) == Sum4(d, a, b, c)
  {
    hide Bit, XorByte;
    var l, r := Sum4(a, b, c, d), Sum4(d, a, b, c);
    forall j | 0 <= j < 8 ensures Bit(l, j) == Bit(r, j) {
      BitOfPlus(j);
    }
    BitsDetermine(l, r);
  }

  lemma PlusZero(a: bv8)
    ensures XorByte(a, 0) == a && XorByte(0, a) == a
  {}

  lemma GfPlusRight(k: bv8, a: bv8, b: bv8)
    ensures Gf(k, XorByte(a, b)) == XorByte(Gf(k, a), Gf(k, b))
  {
    hide Gf;
    GfCommutative(k, a ^ b);
    GfDistributes(a, b, k);
    GfCommutative(a, k);
    GfCommutative(b, k);
  }

  lemma InvMixEntryPlus(a: bv8, b: bv8, c: bv8, d: bv8, e: bv8, f: bv8, g: bv8, h: bv8)
    ensures InvMixEntry(XorByte(a, e), XorByte(b, f), XorByte(c, g), XorByte(d, h)) ==
            XorByte(InvMixEntry(a, b, c, d), InvMixEntry(e, f, g, h))
  {
    hide Gf, XorByte;
    GfPlusRight(14, a, e);
    GfPlusRight(11, b, f);
    GfPlusRight(13, c, g);
    GfPlusRight(9, d, h);
    var a', b', c', d' := Gf(14, a), Gf(11, b), Gf(13, c), Gf(9, d);
    var e', f', g', h' := Gf(14, e), Gf(11, f), Gf(13, g), Gf(9, h);
    PlusInterchange(a', e', b', f');
    PlusInterchange(XorByte(a', b'), XorByte(e', f'), c', g');
    PlusInterchange(XorByte(XorByte(a', b'), c'), XorByte(XorByte(e', f'), g'), d', h');
  }

  // What each input byte contributes to the first byte after both mixes.

  lemma CancelA(a: bv8, a2: bv8, a4: bv8, a8: bv8, a16: bv8)
    ensures Sum4(XorByte(XorByte(a16, a8), a4), XorByte(XorByte(a8, a2), a), XorByte(XorByte(a8, a4), a),
                 XorByte(XorByte(a16, a2), XorByte(a8, a))) == a
  {
    hide Bit, XorByte;
    var l, r := Sum4(XorByte(XorByte(a16, a8), a4), XorByte(XorByte(a8, a2), a), XorByte(XorByte(a8, a4), a),
                     XorByte(XorByte(a16, a2), XorByte(a8, a))), a;
    forall j | 0 <= j < 8 ensures Bit(l, j) == Bit(r, j) {
      BitOfPlus(j);
    }
    BitsDetermine(l, r);
  }

  lemma ContributionA(a: bv8)
    ensures InvMixEntry(Gf(2, a), a, a, Gf(3, a)) == a
  {
    hide Gf, XorByte, Xtime, Sum4;
    var a2 := Xtime(a);
    Multiples(a);
    Multiples(a2);
    GfPlusRight(9, a2, a);
    CancelA(a, a2, Xtime(a2), Xtime(Xtime(a2)), Xtime(Xtime(Xtime(a2))));
  }

  lemma CancelB(b: bv8, b2: bv8, b4: bv8, b8: bv8, b16: bv8)
    ensures Sum4(XorByte(XorByte(XorByte(b16, b8), b4), XorByte(XorByte(b8, b4), b2)), XorByte(XorByte(b16, b4), b2),
                 XorByte(XorByte(b8, b4), b), XorByte(b8, b)) == 0
  {
    hide Bit, XorByte;
    var l, r := Sum4(XorByte(XorByte(XorByte(b16, b8), b4), XorByte(XorByte(b8, b4), b2)), XorByte(XorByte(b16, b4), b2),
                     XorByte(XorByte(b8, b4), b), XorByte(b8, b)), 0;
    forall j | 0 <= j < 8 ensures Bit(l, j) == Bit(r, j) {
      BitOfPlus(j);
    }
    BitsDetermine(l, r);
  }

  lemma ContributionB(b: bv8)
    ensures InvMixEntry(Gf(3, b), Gf(2, b), b, b) == 0
  {
    hide Gf, XorByte, Xtime, Sum4;
    var b2 := Xtime(b);
    Multiples(b);
    Multiples(b2);
    GfPlusRight(14, b2, b);
    CancelB(b, b2, Xtime(b2), Xtime(Xtime(b2)), Xtime(Xtime(Xtime(b2))));
  }

  lemma CancelC(c: bv8, c2: bv8, c4: bv8, c8: bv8, c16: bv8)
    ensures Sum4(XorByte(XorByte(c8, c4), c2), XorByte(XorByte(XorByte(c16, c4), c2), XorByte(XorByte(c8, c2), c)),
                 XorByte(XorByte(c16, c8), c2), XorByte(c8, c)) == 0
  {
    hide Bit, XorByte;
    var l, r := Sum4(XorByte(XorByte(c8, c4), c2), XorByte(XorByte(XorByte(c16, c4), c2), XorByte(XorByte(c8, c2), c)),
                     XorByte(XorByte(c16, c8), c2), XorByte(c8, c)), 0;
    forall j | 0 <= j < 8 ensures Bit(l, j) == Bit(r, j) {
      BitOfPlus(j);
    }
    BitsDetermine(l, r);
  }

  lemma ContributionC(c: bv8)
    ensures InvMixEntry(c, Gf(3, c), Gf(2, c), c) == 0
  {
    hide Gf, XorByte, Xtime, Sum4;
    var c2 := Xtime(c);
    Multiples(c);
    Multiples(c2);
    GfPlusRight(11, c2, c);
    CancelC(c, c2, Xtime(c2), Xtime(Xtime(c2)), Xtime(Xtime(Xtime(c2))));
  }

  lemma CancelD(d: bv8, d2: bv8, d4: bv8, d8: bv8, d16: bv8)
    ensures Sum4(XorByte(XorByte(d8, d4), d2), XorByte(XorByte(d8, d2), d),
                 XorByte(XorByte(XorByte(d16, d8), d2), XorByte(XorByte(d8, d4), d)), XorByte(d16, d2)) == 0
  {
    hide Bit, XorByte;
    var l, r := Sum4(XorByte(XorByte(d8, d4), d2), XorByte(XorByte(d8, d2), d),
                     XorByte(XorByte(XorByte(d16, d8), d2), XorByte(XorByte(d8, d4), d)), XorByte(d16, d2)), 0;
    forall j | 0 <= j < 8 ensures Bit(l, j) == Bit(r, j) {
      BitOfPlus(j);
    }
    BitsDetermine(l, r);
  }

  lemma ContributionD(d: bv8)
    ensures InvMixEntry(d, d, Gf(3, d), Gf(2, d)) == 0
  {
    hide Gf, XorByte, Xtime, Sum4;
    var d2 := Xtime(d);
    Multiples(d);
    Multiples(d2);
    GfPlusRight(13, d2, d);
    CancelD(d, d2, Xtime(d2), Xtime(Xtime(d2)), Xtime(Xtime(Xtime(d2))));
  }

  /** The bytes of a mixed column, each with its terms in the order a, b, c, d. */
  lemma MixEntryTerms(a: bv8, b: bv8, c: bv8, d: bv8)
    ensures MixEntry(a, b, c, d) == Sum4(Gf(2, a), Gf(3, b), c, d)
    ensures MixEntry(b, c, d, a) == Sum4(a, Gf(2, b), Gf(3, c), d)
    ensures MixEntry(c, d, a, b) == Sum4(a, b, Gf(2, c), Gf(3, d))
    ensures MixEntry(d, a, b, c) == Sum4(Gf(3, a), b, c, Gf(2, d))
  {
    hide Gf, Sum4;
    GfOne(a);
    GfOne(b);
    GfOne(c);
    GfOne(d);
    Sum4Rotate(Gf(2, b), Gf(3, c), d, a);
    Sum4Rotate(Gf(2, c), Gf(3, d), a, b);
    Sum4Rotate(b, Gf(2, c), Gf(3, d), a);
    Sum4Rotate(Gf(3, a), b, c, Gf(2, d));
  }

  lemma MixEntryInverse(a: bv8, b: bv8, c: bv8, d: bv8)
    ensures InvMixEntry(MixEntry(a, b, c, d), MixEntry(b, c, d, a), MixEntry(c, d, a, b), MixEntry(d, a, b, c)) == a
  {
    hide MixEntry, InvMixEntry, Gf, XorByte;
    var a2, a3, b2, b3 := Gf(2, a), Gf(3, a), Gf(2, b), Gf(3, b);
    var c2, c3, d2, d3 := Gf(2, c), Gf(3, c), Gf(2, d), Gf(3, d);
    MixEntryTerms(a, b, c, d);
    ContributionA(a);
    ContributionB(b);
    ContributionC(c);
    ContributionD(d);
    InvMixEntryPlus(a2, a, a, a3, b3, b2, b, b);
    InvMixEntryPlus(XorByte(a2, b3), XorByte(a, b2), XorByte(a, b), XorByte(a3, b), c, c3, c2, c);
    InvMixEntryPlus(XorByte(XorByte(a2, b3), c), XorByte(XorByte(a, b2), c3), XorByte(XorByte(a, b), c2), XorByte(XorByte(a3, b), c), d, d, d3, d2);
    PlusZero(a);
  }

  lemma MixColumnInverse(a: bv8, b: bv8, c: bv8, d: bv8)
    ensures var m := MixColumn(a, b, c, d); InvMixColumn(m[0], m[1], m[2], m[3]) == [a, b, c, d]
  {
    hide MixEntry, InvMixEntry;
    MixEntryInverse(a, b, c, d);
    MixEntryInverse(b, c, d, a);
    MixEntryInverse(c, d, a, b);
    MixEntryInverse(d, a, b, c);
  }

  lemma MixColumnsInverse(s: Block)
    ensures InvMixColumns(MixColumns(s)) == s
  {
    hide MixColumn, InvMixColumn, MixColumns;
    ColumnAt(s, 0);
    ColumnAt(s, 1);
    ColumnAt(s, 2);
    ColumnAt(s, 3);
    MixColumnInverse(s[0], s[1], s[2], s[3]);
    MixColumnInverse(s[4], s[5], s[6], s[7]);
    MixColumnInverse(s[8], s[9], s[10], s[11]);
    MixColumnInverse(s[12], s[13], s[14], s[15]);
    assert s == [s[0], s[1], s[2], s[3]] + [s[4], s[5], s[6], s[7]]
             + [s[8], s[9], s[10], s[11]] + [s[12], s[13], s[14], s[15]];
  }

  /** Column i of the mixed state. */
  lemma ColumnAt(s: Block, i: nat)
    requires i < 4
    ensures var t, m := MixColumns(s), MixColumn(s[4 * i], s[4 * i + 1], s[4 * i + 2], s[4 * i + 3]);
      |m| == 4 && t[4 * i] == m[0] && t[4 * i + 1] == m[1] && t[4 * i + 2] == m[2] && t[4 * i + 3] == m[3]
  {
    hide MixEntry;
    if i == 0 {} else if i == 1 {} else if i == 2 {} else {}
  }

  // ----- the rounds, for any round keys

  function RoundKey(keys: seq<bv8>, r: nat): Block
    requires 16 * r + 16 <= |keys|
  {
    keys[16 * r..16 * r + 16]
  }

  function Round(s: Block, k: Block): Block {
    Xor(MixColumns(ShiftRows(SubBytes(s))), k)
  }

  function InvRound(s: Block, k: Block): Block {
    InvSubBytes(InvShiftRows(InvMixColumns(Xor(s, k))))
  }

  /** The state after the initial key addition and n full rounds. */
  function Rounds(block: Block, keys: seq<bv8>, n: nat): Block
    requires 16 * n + 16 <= |keys|
  {
    if n == 0 then Xor(block, RoundKey(keys, 0)) else Round(Rounds(block, keys, n - 1), RoundKey(keys, n))
  }

  function InvRounds(s: Block, keys: seq<bv8>, n: nat): Block
    requires 16 * n + 16 <= |keys|
    decreases n
  {
    if n == 0 then Xor(s, RoundKey(keys, 0)) else InvRounds(InvRound(s, RoundKey(keys, n)), keys, n - 1)
  }

  /** aesIteration with total rounds: the last one has no column mix. */
  function Encrypt(block: Block, keys: seq<bv8>, total: nat): Block
    requires 1 <= total && 16 * total + 16 <= |keys|
  {
    Xor(ShiftRows(SubBytes(Rounds(block, keys, total - 1))), RoundKey(keys, total))
  }

  /** The inverse cipher: inverse steps, keys in reverse. */
  function Decrypt(block: Block, keys: seq<bv8>, total: nat): Block
    requires 1 <= total && 16 * total + 16 <= |keys|
  {
    InvRounds(InvSubBytes(InvShiftRows(Xor(block, RoundKey(keys, total)))), keys, total - 1)
  }

  // ----- the rounds byte by byte, and the schedule as a list of round keys

  /** The byte of row r that ShiftRows brings to column c. */
  function Shifted(s: Block, r: nat, c: nat): bv8 {
    s[4 * ((c + r % 4) % 4) + r % 4]
  }

  lemma MixedEntry(t: Block, r: nat, c: nat)
    requires r < 4 && c < 4
    ensures MixColumns(t)[4 * c + r] ==
      MixEntry(t[4 * c + r], t[4 * c + (r + 1) % 4], t[4 * c + (r + 2) % 4], t[4 * c + (r + 3) % 4])
  {
    hide MixEntry, MixColumns;
    ColumnAt(t, c);
    if r == 0 {} else if r == 1 {} else if r == 2 {} else {}
  }

  lemma MixedByte(t: Block, r: nat, c: nat)
    requires r < 4 && c < 4
    ensures MixColumns(t)[4 * c + r] ==
      Sum4(Gf(2, t[4 * c + r]), Gf(3, t[4 * c + (r + 1) % 4]), t[4 * c + (r + 2) % 4], t[4 * c + (r + 3) % 4])
  {
    hide MixColumns, MixEntry, Gf, Sum4;
    MixedEntry(t, r, c);
    MixEntryTerms(t[4 * c + r], t[4 * c + (r + 1) % 4], t[4 * c + (r + 2) % 4], t[4 * c + (r + 3) % 4]);
  }

  lemma FiveTerms(a: bv8, b: bv8, c: bv8, d: bv8, e: bv8)
    ensures XorByte(Sum4(a, b, c, d), e) == a ^ b ^ c ^ d ^ e
  {}

  lemma SameRow(s: Block, r: nat, c: nat)
    ensures Shifted(s, r % 4, c) == Shifted(s, r, c)
  {}

  lemma RoundSum(s: Block, k: Block, r: nat, c: nat)
    requires r < 4 && c < 4
    ensures Round(s, k)[4 * c + r] ==
      XorByte(Sum4(Gf(2, SubByte(Shifted(s, r, c))), Gf(3, SubByte(Shifted(s, r + 1, c))),
                   SubByte(Shifted(s, r + 2, c)), SubByte(Shifted(s, r + 3, c))), k[4 * c + r])
  {
    hide SubByte, Gf, MixColumns, ShiftRows, SubBytes, Sum4, Shifted, Xor, XorByte;
    var t := ShiftRows(SubBytes(s));
    ShiftedAt(s, r, c);
    ShiftedAt(s, (r + 1) % 4, c);
    ShiftedAt(s, (r + 2) % 4, c);
    ShiftedAt(s, (r + 3) % 4, c);
    SameRow(s, r + 1, c);
    SameRow(s, r + 2, c);
    SameRow(s, r + 3, c);
    MixedByte(t, r, c);
    XorAt(MixColumns(t), k, 4 * c + r);
  }

  /** A round as one sum (the table form of AES): byte r of column c is 2, 3, 1 and 1
      times the substituted bytes of a diagonal, plus the key byte. */
  lemma RoundByte(s: Block, k: Block, r: nat, c: nat)
    requires r < 4 && c < 4
    ensures Round(s, k)[4 * c + r] ==
      Gf(2, SubByte(Shifted(s, r, c))) ^ Gf(3, SubByte(Shifted(s, r + 1, c)))
      ^ SubByte(Shifted(s, r + 2, c)) ^ SubByte(Shifted(s, r + 3, c)) ^ k[4 * c + r]
  {
    hide SubByte, Gf, Round, Sum4, Shifted, XorByte;
    RoundSum(s, k, r, c);
    FiveTerms(Gf(2, SubByte(Shifted(s, r, c))), Gf(3, SubByte(Shifted(s, r + 1, c))),
              SubByte(Shifted(s, r + 2, c)), SubByte(Shifted(s, r + 3, c)), k[4 * c + r]);
  }

  /** What the first key and the last round do to a byte. */
  lemma OuterBytes(block: Block, keys: seq<bv8>, total: nat, r: nat, c: nat)
    requires 1 <= total && 16 * total + 16 <= |keys| && r < 4 && c < 4
    ensures Rounds(block, keys, 0)[4 * c + r] == block[4 * c + r] ^ keys[4 * c + r]
    ensures Encrypt(block, keys, total)[4 * c + r] ==
      SubByte(Shifted(Rounds(block, keys, total - 1), r, c)) ^ keys[16 * total + 4 * c + r]
  {
    hide SubByte, ShiftRows, SubBytes, Shifted, Xor, Round;
    XorAt(block, RoundKey(keys, 0), 4 * c + r);
    var s := Rounds(block, keys, total - 1);
    ShiftedAt(s, r, c);
    XorAt(ShiftRows(SubBytes(s)), RoundKey(keys, total), 4 * c + r);
  }

  lemma ShiftedAt(s: Block, r: nat, c: nat)
    requires r < 4 && c < 4
    ensures ShiftRows(SubBytes(s))[4 * c + r] == SubByte(Shifted(s, r, c))
  {
    hide SubByte;
    assert (4 * c + r) % 4 == r && (4 * c + r + 4 * r) % 16 == 4 * ((c + r) % 4) + r;
  }

  /** The schedule in memory: one round key after another. */
  function Flat(ks: seq<Block>): (s: seq<bv8>)
    ensures |s| == 16 * |ks|
  {
    if ks == [] then [] else Flat(ks[..|ks| - 1]) + ks[|ks| - 1]
  }

  lemma {:induction false} RoundKeyOfFlat(ks: seq<Block>, r: nat)
    requires r < |ks|
    ensures RoundKey(Flat(ks), r) == ks[r]
    decreases |ks|
  {
    var n := |ks| - 1;
    if r < n {
      RoundKeyOfFlat(ks[..n], r);
      assert RoundKey(Flat(ks), r) == RoundKey(Flat(ks[..n]), r);
    }
  }

  /** The state after the first key and a full round for each of the others. */
  function FullRounds(block: Block, ks: seq<Block>): Block
    requires ks != []
  {
    if |ks| == 1 then Xor(block, ks[0]) else Round(FullRounds(block, ks[..|ks| - 1]), ks[|ks| - 1])
  }

  /** Cipher of section 5.1 of FIPS 197 over its list of round keys. */
  function Cipher(block: Block, ks: seq<Block>): Block
    requires |ks| >= 2
  {
    Xor(ShiftRows(SubBytes(FullRounds(block, ks[..|ks| - 1]))), ks[|ks| - 1])
  }

  lemma {:induction false} RoundsOfFlat(block: Block, ks: seq<Block>, n: nat)
    requires n < |ks|
    ensures Rounds(block, Flat(ks), n) == FullRounds(block, ks[..n + 1])
  {
    hide Round, Xor, Flat, RoundKey;
    RoundKeyOfFlat(ks, n);
    if n > 0 {
      RoundsOfFlat(block, ks, n - 1);
      assert ks[..n + 1][..n] == ks[..n];
    }
  }

  lemma EncryptIsCipher(block: Block, ks: seq<Block>)
    requires |ks| >= 2
    ensures Encrypt(block, Flat(ks), |ks| - 1) == Cipher(block, ks)
  {
    hide Rounds, FullRounds, Xor, Flat, RoundKey, ShiftRows, SubBytes;
    RoundsOfFlat(block, ks, |ks| - 2);
    RoundKeyOfFlat(ks, |ks| - 1);
  }

  lemma AnySchedule(block: Block, keys: seq<bv8>, total: nat)
    requires 1 <= total && 16 * total + 16 <= |keys|
    ensures forall ks: seq<Block> :: |ks| == total + 1 && keys == Flat(ks) ==> Encrypt(block, keys, total) == Cipher(block, ks)
  {
    hide Encrypt, Cipher, Flat;
    forall ks: seq<Block> | |ks| == total + 1 && keys == Flat(ks) ensures Encrypt(block, keys, total) == Cipher(block, ks) {
      EncryptIsCipher(block, ks);
    }
  }

  lemma InvRoundInverts(s: Block, k: Block)
    ensures InvRound(Round(s, k), k) == s
  {
    hide MixColumns, InvMixColumns, ShiftRows, InvShiftRows, SubBytes, InvSubBytes, Xor;
    XorCancels(MixColumns(ShiftRows(SubBytes(s))), k);
    MixColumnsInverse(ShiftRows(SubBytes(s)));
    ShiftRowsInverse(SubBytes(s));
    SubBytesInverse(s);
  }

  lemma {:induction false} InvRoundsInvert(block: Block, keys: seq<bv8>, n: nat)
    requires 16 * n + 16 <= |keys|
    ensures InvRounds(Rounds(block, keys, n), keys, n) == block
  {
    hide Round, InvRound, Xor;
    if n == 0 {
      XorCancels(block, RoundKey(keys, 0));
    } else {
      InvRoundInverts(Rounds(block, keys, n - 1), RoundKey(keys, n));
      InvRoundsInvert(block, keys, n - 1);
    }
  }

  /** For every block, every key schedule and every number of rounds, the
      inverse cipher recovers the block. */
  lemma DecryptInverts(block: Block, keys: seq<bv8>, total: nat)
    requires 1 <= total && 16 * total + 16 <= |keys|
    ensures Decrypt(Encrypt(block, keys, total), keys, total) == block
  {
    hide ShiftRows, InvShiftRows, SubBytes, InvSubBytes, Xor, Rounds, InvRounds;
    var s := Rounds(block, keys, total - 1);
    XorCancels(ShiftRows(SubBytes(s)), RoundKey(keys, total));
    ShiftRowsInverse(SubBytes(s));
    SubBytesInverse(s);
    InvRoundsInvert(block, keys, total - 1);
  }

  // ----- the steps in place

  method SubBytesInPlace(state: array<bv8>)
    requires state.Length == 16
    modifies state
    ensures state[..] == SubBytes(old(state[..]))
  {
    hide SubByte;
    for i := 0 to 16
      invariant forall j :: 0 <= j < i ==> state[j] == SubByte(old(state[j]))
      invariant forall j :: i <= j < 16 ==> state[j] == old(state[j])
    {
      state[i] := SubByte(state[i]);
    }
  }

  lemma ShiftRowsWritten(s: Block)
    ensures ShiftRows(s) == [s[0], s[5], s[10], s[15], s[4], s[9], s[14], s[3],
                             s[8], s[13], s[2], s[7], s[12], s[1], s[6], s[11]]
  {}

  method ShiftRowOne(state: array<bv8>)
    requires state.Length == 16
    modifies state
    ensures state[..] == old(state[..])[1 := old(state[5])][5 := old(state[9])][9 := old(state[13])][13 := old(state[1])]
  {
    var tmp := state[1];
    state[1] := state[5];
    state[5] := state[9];
    state[9] := state[13];
    state[13] := tmp;
  }

  method ShiftRowTwo(state: array<bv8>)
    requires state.Length == 16
    modifies state
    ensures state[..] == old(state[..])[2 := old(state[10])][10 := old(state[2])][6 := old(state[14])][14 := old(state[6])]
  {
    var tmp := state[2];
    state[2] := state[10];
    state[10] := tmp;
    tmp := state[6];
    state[6] := state[14];
    state[14] := tmp;
  }

  method ShiftRowThree(state: array<bv8>)
    requires state.Length == 16
    modifies state
    ensures state[..] == old(state[..])[3 := old(state[15])][15 := old(state[11])][11 := old(state[7])][7 := old(state[3])]
  {
    var tmp := state[3];
    state[3] := state[15];
    state[15] := state[11];
    state[11] := state[7];
    state[7] := tmp;
  }

  method ShiftRowsInPlace(state: array<bv8>)
    requires state.Length == 16
    modifies state
    ensures state[..] == ShiftRows(old(state[..]))
  {
    hide ShiftRows;
    ghost var s := state[..];
    ShiftRowOne(state);
    ghost var s1 := state[..];
    ShiftRowTwo(state);
    ghost var s2 := state[..];
    ShiftRowThree(state);
    ShiftRowsWritten(s);
    RowsTogether(s, s1, s2, state[..]);
  }

  lemma RowsTogether(s: Block, s1: Block, s2: Block, s3: Block)
    requires s1 == s[1 := s[5]][5 := s[9]][9 := s[13]][13 := s[1]]
    requires s2 == s1[2 := s1[10]][10 := s1[2]][6 := s1[14]][14 := s1[6]]
    requires s3 == s2[3 := s2[15]][15 := s2[11]][11 := s2[7]][7 := s2[3]]
    ensures s3 == [s[0], s[5], s[10], s[15], s[4], s[9], s[14], s[3],
                   s[8], s[13], s[2], s[7], s[12], s[1], s[6], s[11]]
  {}

  /** One column of mixColumns, with the products in the order of the source. */
  method MixOneColumn(a: bv8, b: bv8, c: bv8, d: bv8) returns (t: seq<bv8>)
    ensures t == MixColumn(a, b, c, d)
  {
    hide Gf;
    var a1 := Gmult(1, a);
    var a2 := Gmult(2, a);
    var a3 := Gmult(3, a);
    var b1 := Gmult(1, b);
    var b2 := Gmult(2, b);
    var b3 := Gmult(3, b);
    var c1 := Gmult(1, c);
    var c2 := Gmult(2, c);
    var c3 := Gmult(3, c);
    var d1 := Gmult(1, d);
    var d2 := Gmult(2, d);
    var d3 := Gmult(3, d);
    t := [Sum4(a2, b3, c1, d1), Sum4(a1, b2, c3, d1), Sum4(a1, b1, c2, d3), Sum4(a3, b1, c1, d2)];
    hide Sum4;
    Sum4Rotate(b2, c3, d1, a1);
    Sum4Rotate(c2, d3, a1, b1);
    Sum4Rotate(b1, c2, d3, a1);
    Sum4Rotate(a3, b1, c1, d2);
  }

  method MixColumnsInPlace(state: array<bv8>)
    requires state.Length == 16
    modifies state
    ensures state[..] == MixColumns(old(state[..]))
  {
    hide MixColumn, MixColumns;
    ghost var s := state[..];
    for i := 0 to 4
      invariant forall j :: 0 <= j < 4 * i ==> state[j] == MixColumns(s)[j]
      invariant forall j :: 4 * i <= j < 16 ==> state[j] == s[j]
    {
      var tmp := MixOneColumn(state[4 * i], state[4 * i + 1], state[4 * i + 2], state[4 * i + 3]);
      ColumnAt(s, i);
      state[4 * i] := tmp[0];
      state[4 * i + 1] := tmp[1];
      state[4 * i + 2] := tmp[2];
      state[4 * i + 3] := tmp[3];
    }
  }

  method AddRoundKey(state: array<bv8>, word: seq<bv8>)
    requires state.Length == 16 && |word| == 16
    modifies state
    ensures state[..] == Xor(old(state[..]), word)
  {
    for i := 0 to 16
      invariant forall j :: 0 <= j < i ==> state[j] == old(state[j]) ^ word[j]
      invariant forall j :: i <= j < 16 ==> state[j] == old(state[j])
    {
      state[i] := state[i] ^ word[i];
    }
  }

  /** aesIteration: the output buffer is the state. */
  method AesIteration(block: Block, out: array<bv8>, keys: seq<bv8>, total: nat)
    requires out.Length == 16 && 1 <= total && 16 * total + 16 <= |keys|
    modifies out
    ensures out[..] == Encrypt(block, keys, total)
    ensures forall ks: seq<Block> :: |ks| == total + 1 && keys == Flat(ks) ==> out[..] == Cipher(block, ks)
  {
    hide SubBytes, ShiftRows, MixColumns, Xor, Cipher, Flat, RoundKey;
    AnySchedule(block, keys, total);
    for i := 0 to 16
      invariant forall j :: 0 <= j < i ==> out[j] == block[j]
    {
      out[i] := block[i];
    }
    assert out[..] == block;
    AddRoundKey(out, RoundKey(keys, 0));
    for round := 0 to total - 1
      invariant out[..] == Rounds(block, keys, round)
    {
      SubBytesInPlace(out);
      ShiftRowsInPlace(out);
      MixColumnsInPlace(out);
      AddRoundKey(out, RoundKey(keys, round + 1));
    }
    SubBytesInPlace(out);
    ShiftRowsInPlace(out);
    AddRoundKey(out, RoundKey(keys, total));
  }
}
