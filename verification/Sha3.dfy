/** sha3 of sha3_256.cc: the two steps of Keccak that rewrite the state in place
    (sections 3.2.3 and 3.2.4 of FIPS 202) and the padding driver (sections 4, 5.1
    and 6.1 of FIPS 202).  Lane (x, y) of the state is word x + 5 y. */
module Sha3 {
  import opened Arith
  import opened Bytes
  import opened Buffers
  import opened HashPadding

  // ----- pi

  /** The lane that pi moves to lane k (section 3.2.3 of FIPS 202). */
  function PiSource(k: nat): (j: nat)
    requires k < 25
    ensures j < 25
  {
    (k % 5 + 3 * (k / 5)) % 5 + 5 * (k % 5)
  }

  function Pi<T>(s: seq<T>): (r: seq<T>)
    requires |s| == 25
    ensures |r| == 25
  {
    seq(25, k requires 0 <= k < 25 => s[PiSource(k)])
  }

  lemma PiSources()
    ensures PiSource(0) == 0 && PiSource(1) == 6 && PiSource(2) == 12 && PiSource(3) == 18 && PiSource(4) == 24
    ensures PiSource(5) == 3 && PiSource(6) == 9 && PiSource(7) == 10 && PiSource(8) == 16 && PiSource(9) == 22
    ensures PiSource(10) == 1 && PiSource(11) == 7 && PiSource(12) == 13 && PiSource(13) == 19 && PiSource(14) == 20
    ensures PiSource(15) == 4 && PiSource(16) == 5 && PiSource(17) == 11 && PiSource(18) == 17 && PiSource(19) == 23
    ensures PiSource(20) == 2 && PiSource(21) == 8 && PiSource(22) == 14 && PiSource(23) == 15 && PiSource(24) == 21
  {}

  lemma PiLanes<T>(s: seq<T>)
    requires |s| == 25
    ensures Pi(s) ==
      [s[0], s[6], s[12], s[18], s[24], s[3], s[9], s[10], s[16], s[22], s[1], s[7], s[13],
       s[19], s[20], s[4], s[5], s[11], s[17], s[23], s[2], s[8], s[14], s[15], s[21]]
  {
    hide PiSource;
    PiSources();
  }

  /** The first half of the 24 assignments of keccak_pi. */
  method PiFirstHalf<T>(a: array<T>)
    requires a.Length == 25
    modifies a
    ensures a[0] == old(a[0]) && a[1] == old(a[6]) && a[2] == old(a[12]) && a[3] == old(a[3]) && a[4] == old(a[4])
    ensures a[5] == old(a[5]) && a[6] == old(a[9]) && a[7] == old(a[7]) && a[8] == old(a[8]) && a[9] == old(a[22])
    ensures a[10] == old(a[10]) && a[11] == old(a[11]) && a[12] == old(a[13]) && a[13] == old(a[19]) && a[14] == old(a[20])
    ensures a[15] == old(a[4]) && a[16] == old(a[16]) && a[17] == old(a[17]) && a[18] == old(a[18]) && a[19] == old(a[23])
    ensures a[20] == old(a[2]) && a[21] == old(a[21]) && a[22] == old(a[14]) && a[23] == old(a[15]) && a[24] == old(a[24])
  {
    a[1] := a[6]; a[6] := a[9]; a[9] := a[22]; a[22] := a[14];
    a[14] := a[20]; a[20] := a[2]; a[2] := a[12]; a[12] := a[13];
    a[13] := a[19]; a[19] := a[23]; a[23] := a[15]; a[15] := a[4];
  }

  /** The second half, which ends with the saved lane. */
  method PiSecondHalf<T>(a: array<T>, a1: T)
    requires a.Length == 25
    modifies a
    ensures a[0] == old(a[0]) && a[1] == old(a[1]) && a[2] == old(a[2]) && a[3] == old(a[18]) && a[4] == old(a[24])
    ensures a[5] == old(a[3]) && a[6] == old(a[6]) && a[7] == old(a[10]) && a[8] == old(a[16]) && a[9] == old(a[9])
    ensures a[10] == a1 && a[11] == old(a[7]) && a[12] == old(a[12]) && a[13] == old(a[13]) && a[14] == old(a[14])
    ensures a[15] == old(a[15]) && a[16] == old(a[5]) && a[17] == old(a[11]) && a[18] == old(a[17]) && a[19] == old(a[19])
    ensures a[20] == old(a[20]) && a[21] == old(a[8]) && a[22] == old(a[22]) && a[23] == old(a[23]) && a[24] == old(a[21])
  {
    a[4] := a[24]; a[24] := a[21]; a[21] := a[8]; a[8] := a[16];
    a[16] := a[5]; a[5] := a[3]; a[3] := a[18]; a[18] := a[17];
    a[17] := a[11]; a[11] := a[7]; a[7] := a[10]; a[10] := a1;
  }

  /** keccak_pi: the cycle is the simultaneous move of all lanes. */
  method KeccakPi<T>(a: array<T>)
    requires a.Length == 25
    modifies a
    ensures a[..] == Pi(old(a[..]))
  {
    hide Pi;
    PiLanes(a[..]);
    var a1 := a[1];
    PiFirstHalf(a);
    PiSecondHalf(a, a1);
  }

  // ----- chi

  function ChiLane(a: bv64, b: bv64, c: bv64): bv64 {
    a ^ (!b & c)
  }

  /** The lane d places to the right of lane k in its row. */
  function Right(k: nat, d: nat): (j: nat)
    requires k < 25
    ensures j < 25
  {
    5 * (k / 5) + (k % 5 + d) % 5
  }

  /** Every lane combined with its two right neighbours. */
  function RowMap<T>(f: (T, T, T) -> T, s: seq<T>): (r: seq<T>)
    requires |s| == 25
    ensures |r| == 25
  {
    seq(25, k requires 0 <= k < 25 => f(s[k], s[Right(k, 1)], s[Right(k, 2)]))
  }

  function RowOf<T>(f: (T, T, T) -> T, s: seq<T>): (r: seq<T>)
    requires |s| == 5
    ensures |r| == 5
  {
    [f(s[0], s[1], s[2]), f(s[1], s[2], s[3]), f(s[2], s[3], s[4]), f(s[3], s[4], s[0]), f(s[4], s[0], s[1])]
  }

  lemma RightInRow(y: nat, x: nat, d: nat)
    requires y < 5 && x < 5
    ensures Right(5 * y + x, d) == 5 * y + (x + d) % 5
  {
    assert (5 * y + x) / 5 == y && (5 * y + x) % 5 == x;
  }

  lemma RowMapAt<T>(f: (T, T, T) -> T, s: seq<T>, y: nat, x: nat)
    requires |s| == 25 && y < 5 && x < 5
    ensures RowMap(f, s)[5 * y + x] == f(s[5 * y + x], s[5 * y + (x + 1) % 5], s[5 * y + (x + 2) % 5])
  {
    hide Right;
    RightInRow(y, x, 1);
    RightInRow(y, x, 2);
  }

  lemma RowMapByRows<T>(f: (T, T, T) -> T, s: seq<T>, y: nat)
    requires |s| == 25 && y < 5
    ensures RowMap(f, s)[5 * y..5 * y + 5] == RowOf(f, s[5 * y..5 * y + 5])
  {
    hide RowMap;
    RowMapAt(f, s, y, 0);
    RowMapAt(f, s, y, 1);
    RowMapAt(f, s, y, 2);
    RowMapAt(f, s, y, 3);
    RowMapAt(f, s, y, 4);
  }

  /** One row of keccak_chi, rewritten in place from two saved lanes. */
  method ChiRow<T>(f: (T, T, T) -> T, a: array<T>, i: nat)
    requires i + 5 <= a.Length
    modifies a
    ensures a[..] == old(a[..i]) + RowOf(f, old(a[i..i + 5])) + old(a[i + 5..])
  {
    var a0, a1 := a[0 + i], a[1 + i];
    a[0 + i] := f(a[0 + i], a1, a[2 + i]);
    a[1 + i] := f(a[1 + i], a[2 + i], a[3 + i]);
    a[2 + i] := f(a[2 + i], a[3 + i], a[4 + i]);
    a[3 + i] := f(a[3 + i], a[4 + i], a0);
    a[4 + i] := f(a[4 + i], a0, a1);
  }

  /** The rows in turn are the simultaneous definition. */
  method RowsInPlace<T>(f: (T, T, T) -> T, a: array<T>)
    requires a.Length == 25
    modifies a
    ensures a[..] == RowMap(f, old(a[..]))
  {
    hide RowMap, RowOf, Mixed;
    ghost var s := a[..];
    ghost var r := RowMap(f, s);
    MixedEnds(s, r);
    for y := 0 to 5
      invariant a[..] == Mixed(s, r, 5 * y)
    {
      MixedStep(s, r, 5 * y);
      RowMapByRows(f, s, y);
      ChiRow(f, a, 5 * y);
    }
  }

  /** Chi on 64-bit lanes. */
  function Chi(s: seq<bv64>): (r: seq<bv64>)
    requires |s| == 25
    ensures |r| == 25
  {
    RowMap(ChiLane, s)
  }

  /** keccak_chi. */
  method KeccakChi(a: array<bv64>)
    requires a.Length == 25
    modifies a
    ensures a[..] == Chi(old(a[..]))
  {
    hide RowMap;
    RowsInPlace(ChiLane, a);
  }

  // ----- chi, bit by bit

  predicate OneBit(m: bv64) {
    m != 0 && m & (m - 1) == 0
  }

  function Part(x: bv64, m: bv64): bv64 {
    x & m
  }

  predicate On(x: bv64, m: bv64) {
    Part(x, m) != 0
  }

  /** Bit z of a lane. */
  predicate LaneBit(x: bv64, z: nat)
    requires z < 64
  {
    x & (1 << z) != 0
  }

  lemma LaneBitIsOn(x: bv64, z: nat)
    requires z < 64
    ensures LaneBit(x, z) == On(x, 1 << z)
  {}

  lemma ShiftedOne(z: nat)
    requires z < 64
    ensures OneBit(1 << z)
  {}

  lemma OneBitCases(x: bv64, m: bv64)
    requires OneBit(m)
    ensures m != 0 && (Part(x, m) == 0 || Part(x, m) == m)
  {}

  /** Where the right neighbour is set, or the next one clear, a lane stays as it is. */
  lemma ChiKeepsSet(a: bv64, b: bv64, c: bv64, m: bv64)
    requires Part(b, m) == m
    ensures Part(ChiLane(a, b, c), m) == Part(a, m)
  {}

  lemma ChiKeepsClear(a: bv64, b: bv64, c: bv64, m: bv64)
    requires Part(c, m) == 0
    ensures Part(ChiLane(a, b, c), m) == Part(a, m)
  {}

  /** Where the right neighbour is clear and the next one set, it changes. */
  lemma ChiSets(a: bv64, b: bv64, c: bv64, m: bv64)
    requires Part(a, m) == 0 && Part(b, m) == 0 && Part(c, m) == m
    ensures Part(ChiLane(a, b, c), m) == m
  {}

  lemma ChiClears(a: bv64, b: bv64, c: bv64, m: bv64)
    requires Part(a, m) == m && Part(b, m) == 0 && Part(c, m) == m
    ensures Part(ChiLane(a, b, c), m) == 0
  {}

  lemma ChiOneBit(a: bv64, b: bv64, c: bv64, m: bv64)
    requires OneBit(m)
    ensures On(ChiLane(a, b, c), m) == (On(a, m) != (!On(b, m) && On(c, m)))
  {
    hide ChiLane, OneBit, Part;
    OneBitCases(a, m);
    OneBitCases(b, m);
    OneBitCases(c, m);
    if Part(b, m) == m {
      ChiKeepsSet(a, b, c, m);
    } else if Part(c, m) == 0 {
      ChiKeepsClear(a, b, c, m);
    } else if Part(a, m) == 0 {
      ChiSets(a, b, c, m);
    } else {
      ChiClears(a, b, c, m);
    }
  }

  lemma ChiLaneBit(a: bv64, b: bv64, c: bv64, z: nat)
    requires z < 64
    ensures LaneBit(ChiLane(a, b, c), z) == (LaneBit(a, z) != (!LaneBit(b, z) && LaneBit(c, z)))
  {
    hide ChiLane, OneBit, LaneBit, On;
    LaneBitIsOn(a, z);
    LaneBitIsOn(b, z);
    LaneBitIsOn(c, z);
    LaneBitIsOn(ChiLane(a, b, c), z);
    ShiftedOne(z);
    ChiOneBit(a, b, c, 1 << z);
  }

  /** Chi as section 3.2.4 of FIPS 202 defines it: bit z of lane (x, y) changes exactly
      when the bit of its right neighbour is clear and that of the next one set. */
  lemma ChiBit(s: seq<bv64>, x: nat, y: nat, z: nat)
    requires |s| == 25 && x < 5 && y < 5 && z < 64
    ensures LaneBit(Chi(s)[5 * y + x], z) ==
      (LaneBit(s[5 * y + x], z) != (!LaneBit(s[5 * y + (x + 1) % 5], z) && LaneBit(s[5 * y + (x + 2) % 5], z)))
  {
    hide ChiLane, LaneBit, RowMap;
    RowMapAt(ChiLane, s, y, x);
    ChiLaneBit(s[5 * y + x], s[5 * y + (x + 1) % 5], s[5 * y + (x + 2) % 5], z);
  }

  /** The first i lanes of r, the others of s. */
  function Mixed<T>(s: seq<T>, r: seq<T>, i: nat): (t: seq<T>)
    requires |s| == |r| && i <= |s|
    ensures |t| == |s|
  {
    r[..i] + s[i..]
  }

  lemma MixedEnds<T>(s: seq<T>, r: seq<T>)
    requires |s| == |r|
    ensures Mixed(s, r, 0) == s && Mixed(s, r, |s|) == r
  {}

  lemma MixedStep<T>(s: seq<T>, r: seq<T>, i: nat)
    requires |s| == |r| && i + 5 <= |s|
    ensures var t := Mixed(s, r, i);
      t[i..i + 5] == s[i..i + 5] && t[..i] + r[i..i + 5] + t[i + 5..] == Mixed(s, r, i + 5)
  {}

  /** A lane of a row, computed from the row's five lanes after chi. */
  function UnChiLane(a: bv64, b: bv64, c: bv64, d: bv64, e: bv64): bv64 {
    ChiLane(a, b, ChiLane(c, d, e))
  }

  lemma UnChiLow(a: bv64, b: bv64, c: bv64, d: bv64, e: bv64)
    ensures UnChiLane(ChiLane(a, b, c), ChiLane(b, c, d), ChiLane(c, d, e), ChiLane(d, e, a), ChiLane(e, a, b)) & 0xffff_ffff
         == a & 0xffff_ffff
  {}

  lemma UnChiHigh(a: bv64, b: bv64, c: bv64, d: bv64, e: bv64)
    ensures UnChiLane(ChiLane(a, b, c), ChiLane(b, c, d), ChiLane(c, d, e), ChiLane(d, e, a), ChiLane(e, a, b)) & 0xffff_ffff_0000_0000
         == a & 0xffff_ffff_0000_0000
  {}

  lemma BothHalves(x: bv64, y: bv64)
    requires x & 0xffff_ffff == y & 0xffff_ffff && x & 0xffff_ffff_0000_0000 == y & 0xffff_ffff_0000_0000
    ensures x == y
  {}

  lemma UnChiLaneInverts(a: bv64, b: bv64, c: bv64, d: bv64, e: bv64)
    ensures UnChiLane(ChiLane(a, b, c), ChiLane(b, c, d), ChiLane(c, d, e), ChiLane(d, e, a), ChiLane(e, a, b)) == a
  {
    hide UnChiLane, ChiLane;
    UnChiLow(a, b, c, d, e);
    UnChiHigh(a, b, c, d, e);
    BothHalves(UnChiLane(ChiLane(a, b, c), ChiLane(b, c, d), ChiLane(c, d, e), ChiLane(d, e, a), ChiLane(e, a, b)), a);
  }

  /** Every lane computed from its row by g. */
  function UnRowMap<T>(g: (T, T, T, T, T) -> T, s: seq<T>): (r: seq<T>)
    requires |s| == 25
    ensures |r| == 25
  {
    seq(25, k requires 0 <= k < 25 => g(s[k], s[Right(k, 1)], s[Right(k, 2)], s[Right(k, 3)], s[Right(k, 4)]))
  }

  lemma RowMapRight<T>(f: (T, T, T) -> T, s: seq<T>, k: nat, d: nat)
    requires |s| == 25 && k < 25
    ensures RowMap(f, s)[Right(k, d)] == f(s[Right(k, d)], s[Right(k, d + 1)], s[Right(k, d + 2)])
  {
    hide Right;
    RightOfRight(k, d, 1);
    RightOfRight(k, d, 2);
  }

  lemma UnRowMapOfRowMap<T>(f: (T, T, T) -> T, g: (T, T, T, T, T) -> T, s: seq<T>, k: nat)
    requires |s| == 25 && k < 25
    ensures var a, b, c, d, e := s[k], s[Right(k, 1)], s[Right(k, 2)], s[Right(k, 3)], s[Right(k, 4)];
      UnRowMap(g, RowMap(f, s))[k] == g(f(a, b, c), f(b, c, d), f(c, d, e), f(d, e, a), f(e, a, b))
  {
    hide Right, RowMap;
    RowMapRight(f, s, k, 0);
    RowMapRight(f, s, k, 1);
    RowMapRight(f, s, k, 2);
    RowMapRight(f, s, k, 3);
    RowMapRight(f, s, k, 4);
    RightWraps(k);
  }

  lemma ModShift(x: nat, d: nat, e: nat)
    ensures ((x + d) % 5 + e) % 5 == (x + (d + e)) % 5
  {}

  lemma RightOfRight(k: nat, d: nat, e: nat)
    requires k < 25
    ensures Right(Right(k, d), e) == Right(k, d + e)
  {
    var y, x := k / 5, k % 5;
    RightInRow(y, x, d);
    RightInRow(y, (x + d) % 5, e);
    RightInRow(y, x, d + e);
    ModShift(x, d, e);
  }

  lemma RightWraps(k: nat)
    requires k < 25
    ensures Right(k, 0) == k && Right(k, 5) == k && Right(k, 6) == Right(k, 1)
  {}

  /** Chi loses nothing: it can be undone on every state. */
  lemma ChiInvertible(s: seq<bv64>)
    requires |s| == 25
    ensures UnRowMap(UnChiLane, Chi(s)) == s
  {
    hide ChiLane, UnChiLane, Right, RowMap, UnRowMap;
    var r := UnRowMap(UnChiLane, Chi(s));
    forall k | 0 <= k < 25 ensures r[k] == s[k] {
      UnRowMapOfRowMap(ChiLane, UnChiLane, s, k);
      UnChiLaneInverts(s[k], s[Right(k, 1)], s[Right(k, 2)], s[Right(k, 3)], s[Right(k, 4)]);
    }
  }

  // ----- the padding, bit by bit

  /** The bits of a byte string, least significant bit of every byte first. */
  function LsbBits(s: seq<bv8>): (b: seq<bool>)
    ensures |b| == 8 * |s|
  {
    seq(8 * |s|, k requires 0 <= k < 8 * |s| => Bit(s[k / 8], 7 - k % 8))
  }

  function Falses(n: nat): (s: seq<bool>)
    ensures |s| == n && forall i :: 0 <= i < n ==> !s[i]
  {
    seq(n, i => false)
  }

  /** pad10*1: a message of m bits is brought to a multiple of x bits. */
  function Pad101(x: nat, m: nat): (p: seq<bool>)
    requires x > 0
    ensures |p| >= 2
  {
    [true] + Falses((-(m as int) - 2) % x) + [true]
  }

  /** The bytes the driver absorbs. */
  function Sha3Pad(msg: seq<bv8>, rate: nat): (s: seq<bv8>)
    requires rate > 0
    ensures |s| == |msg| + (rate - Rest(|msg|, rate))
  {
    msg + Suffix(rate - Rest(|msg|, rate))
  }

  /** The last q bytes: 06 and 80 with zeros between, or both in one byte. */
  function Suffix(q: nat): (s: seq<bv8>)
    requires q > 0
    ensures |s| == q
  {
    if q == 1 then [0x86] else [0x06] + Zeros(q - 2) + [0x80]
  }

  lemma SuffixBits(q: nat)
    requires q > 0
    ensures LsbBits(Suffix(q)) == [false, true, true] + Falses(8 * q - 4) + [true]
  {
    var b := LsbBits(Suffix(q));
    forall k | 0 <= k < 8 * q
      ensures b[k] == (k == 1 || k == 2 || k == 8 * q - 1)
    {
      SuffixBit(q, k / 8, k % 8);
    }
  }

  lemma SuffixBit(q: nat, i: nat, j: nat)
    requires i < q && j < 8
    ensures Bit(Suffix(q)[i], 7 - j) == (8 * i + j == 1 || 8 * i + j == 2 || 8 * i + j == 8 * q - 1)
  {
    var x := Suffix(q)[i];
    if q == 1 {
      assert x == 0x86;
    } else if i == 0 {
      assert x == 0x06;
    } else if i == q - 1 {
      assert x == 0x80;
    } else {
      assert x == 0;
    }
    ByteBits(x, j);
  }

  lemma ByteBits(x: bv8, j: nat)
    requires j < 8
    ensures x == 0 ==> !Bit(x, 7 - j)
    ensures x == 0x80 ==> Bit(x, 7 - j) == (j == 7)
    ensures x == 0x06 ==> Bit(x, 7 - j) == (j == 1 || j == 2)
    ensures x == 0x86 ==> Bit(x, 7 - j) == (j == 1 || j == 2 || j == 7)
  {
    if j == 0 {} else if j == 1 {} else if j == 2 {} else if j == 3 {}
    else if j == 4 {} else if j == 5 {} else if j == 6 {} else {}
  }

  lemma LsbBitsConcat(s: seq<bv8>, t: seq<bv8>)
    ensures LsbBits(s + t) == LsbBits(s) + LsbBits(t)
  {
    hide Bit;
  }

  lemma PadLength(n: nat, rate: nat)
    requires rate > 0
    ensures (-(8 * n + 2) - 2) % (8 * rate) == 8 * (rate - n % rate) - 4
  {
    var q := n / rate;
    assert n == rate * q + n % rate;
    assert -(8 * n + 2) - 2 == (8 * rate) * (-q - 1) + (8 * (rate - n % rate) - 4) by {
      assert (8 * rate) * (-q - 1) == -8 * (rate * q) - 8 * rate;
    }
    DivModUnique(-(8 * n + 2) - 2, 8 * rate, -q - 1, 8 * (rate - n % rate) - 4);
  }

  /** The absorbed bytes are the message, the suffix 01 and pad10*1 at the rate,
      for every message and every rate. */
  lemma PaddingIsStandard(msg: seq<bv8>, rate: nat)
    requires rate > 0
    ensures LsbBits(Sha3Pad(msg, rate)) == LsbBits(msg) + [false, true] + Pad101(8 * rate, 8 * |msg| + 2)
  {
    hide LsbBits, Suffix, Falses;
    var q := rate - Rest(|msg|, rate);
    LsbBitsConcat(msg, Suffix(q));
    SuffixBits(q);
    PadLength(|msg|, rate);
    assert [false, true, true] + Falses(8 * q - 4) + [true] == [false, true] + ([true] + Falses(8 * q - 4) + [true]);
  }

  /** No two messages are padded alike. */
  lemma Sha3PadInjective(a: seq<bv8>, b: seq<bv8>, rate: nat)
    requires rate > 0 && Sha3Pad(a, rate) == Sha3Pad(b, rate)
    ensures a == b
  {
    var s := Sha3Pad(a, rate);
    if |a| < |b| { ShorterDiffers(a, b, rate); }
    if |b| < |a| { ShorterDiffers(b, a, rate); }
    assert a == s[..|a|] && b == s[..|b|];
  }

  lemma ShorterDiffers(a: seq<bv8>, b: seq<bv8>, rate: nat)
    requires rate > 0 && |a| < |b|
    ensures Sha3Pad(a, rate) != Sha3Pad(b, rate)
  {
    var s, t := Sha3Pad(a, rate), Sha3Pad(b, rate);
    if |s| == |t| {
      assert t[|b|] == if |b| == |t| - 1 then 0x86 else 0x06;
      assert s[|b|] == if |b| == |t| - 1 then 0x80 else 0;
    }
  }

  // ----- the driver

  /** sha3: whole blocks, then a zeroed buffer with the rest and the two padding
      bytes or-ed in.  Absorbing a block is the parameter f. */
  method Sha3Driver<S>(f: (S, seq<bv8>) -> S, init: S, data: seq<bv8>, rate: nat) returns (h: S)
    requires rate > 0
    ensures h == Fold(f, init, Sha3Pad(data, rate), rate)
  {
    hide Fold, Suffix, Whole, Rest;
    h := AbsorbBlocks(f, init, data, rate, Suffix(rate - Rest(|data|, rate)));
    var buffer := new bv8[rate](i => 0);
    var at := Whole(|data|, rate);
    CopyInto(data[at..], buffer, 0);
    var len := Rest(|data|, rate);
    buffer[len] := buffer[len] | 0x06;
    buffer[rate - 1] := buffer[rate - 1] | 0x80;
    LastBlock(data[at..], buffer[..], rate);
    FoldLast(f, h, buffer[..], rate);
    h := f(h, buffer[..]);
  }

  lemma LastBlock(rest: seq<bv8>, block: seq<bv8>, rate: nat)
    requires |rest| < rate == |block|
    requires block[..|rest|] == rest
    requires forall i :: |rest| < i < rate - 1 ==> block[i] == 0
    requires block[|rest|] == if |rest| == rate - 1 then 0x86 else 0x06
    requires block[rate - 1] == if |rest| == rate - 1 then 0x86 else 0x80
    ensures block == rest + Suffix(rate - |rest|)
  {}
}
