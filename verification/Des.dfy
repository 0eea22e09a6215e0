/** The DES block function of des_cfb.cc: the Feistel network between the
    initial permutation and its inverse.  A 32-bit half is its four bytes in
    memory. */
module Des {
  import opened Bytes
  import opened BitStrings
  import opened Sequences

  type Half = h: seq<bv8> | |h| == 4 witness [0, 0, 0, 0]
  type Block = b: seq<bv8> | |b| == 8 witness [0, 0, 0, 0, 0, 0, 0, 0]

  // ----- the initial permutation and its inverse

  /** Entry 8 r + c of the table IP. */
  function IpEntry(r: nat, c: nat): nat
    requires r < 8 && c < 8
  {
    (if r < 4 then 58 + 2 * r else 49 + 2 * r) - 8 * c
  }

  /** Entry 8 r + c of the table IP_i. */
  function IpInvEntry(r: nat, c: nat): nat
    requires r < 8 && c < 8
  {
    (if c % 2 == 0 then 40 + 4 * c else 4 + 4 * c) - r
  }

  function Ip(): (t: seq<nat>)
    ensures |t| == 64 && forall i :: 0 <= i < 64 ==> 1 <= t[i] <= 64
  {
    seq(64, i requires 0 <= i < 64 => IpEntry(i / 8, i % 8))
  }

  function IpInv(): (t: seq<nat>)
    ensures |t| == 64 && forall i :: 0 <= i < 64 ==> 1 <= t[i] <= 64
  {
    seq(64, i requires 0 <= i < 64 => IpInvEntry(i / 8, i % 8))
  }

  lemma IpAt(r: nat, c: nat)
    requires r < 8 && c < 8
    ensures Ip()[8 * r + c] == IpEntry(r, c) && IpInv()[8 * r + c] == IpInvEntry(r, c)
  {
    hide IpEntry, IpInvEntry;
    assert (8 * r + c) / 8 == r && (8 * r + c) % 8 == c;
  }

  lemma IpRow(r: nat)
    requires r < 8
    ensures Ip()[8 * r..8 * r + 8] == [IpEntry(r, 0), IpEntry(r, 1), IpEntry(r, 2), IpEntry(r, 3),
                                       IpEntry(r, 4), IpEntry(r, 5), IpEntry(r, 6), IpEntry(r, 7)]
  {
    hide Ip, IpEntry;
    IpAt(r, 0); IpAt(r, 1); IpAt(r, 2); IpAt(r, 3);
    IpAt(r, 4); IpAt(r, 5); IpAt(r, 6); IpAt(r, 7);
  }

  lemma IpInvRow(r: nat)
    requires r < 8
    ensures IpInv()[8 * r..8 * r + 8] == [IpInvEntry(r, 0), IpInvEntry(r, 1), IpInvEntry(r, 2), IpInvEntry(r, 3),
                                          IpInvEntry(r, 4), IpInvEntry(r, 5), IpInvEntry(r, 6), IpInvEntry(r, 7)]
  {
    hide IpInv, IpInvEntry;
    IpAt(r, 0); IpAt(r, 1); IpAt(r, 2); IpAt(r, 3);
    IpAt(r, 4); IpAt(r, 5); IpAt(r, 6); IpAt(r, 7);
  }

  /** The two tables as the program lists them. */
  lemma IpRows()
    ensures Ip()[0..8] == [58, 50, 42, 34, 26, 18, 10, 2] && Ip()[8..16] == [60, 52, 44, 36, 28, 20, 12, 4]
    ensures Ip()[16..24] == [62, 54, 46, 38, 30, 22, 14, 6] && Ip()[24..32] == [64, 56, 48, 40, 32, 24, 16, 8]
    ensures Ip()[32..40] == [57, 49, 41, 33, 25, 17, 9, 1] && Ip()[40..48] == [59, 51, 43, 35, 27, 19, 11, 3]
    ensures Ip()[48..56] == [61, 53, 45, 37, 29, 21, 13, 5] && Ip()[56..64] == [63, 55, 47, 39, 31, 23, 15, 7]
  {
    hide Ip;
    IpRow(0); IpRow(1); IpRow(2); IpRow(3);
    IpRow(4); IpRow(5); IpRow(6); IpRow(7);
  }

  lemma IpInvRows()
    ensures IpInv()[0..8] == [40, 8, 48, 16, 56, 24, 64, 32] && IpInv()[8..16] == [39, 7, 47, 15, 55, 23, 63, 31]
    ensures IpInv()[16..24] == [38, 6, 46, 14, 54, 22, 62, 30] && IpInv()[24..32] == [37, 5, 45, 13, 53, 21, 61, 29]
    ensures IpInv()[32..40] == [36, 4, 44, 12, 52, 20, 60, 28] && IpInv()[40..48] == [35, 3, 43, 11, 51, 19, 59, 27]
    ensures IpInv()[48..56] == [34, 2, 42, 10, 50, 18, 58, 26] && IpInv()[56..64] == [33, 1, 41, 9, 49, 17, 57, 25]
  {
    hide IpInv;
    IpInvRow(0); IpInvRow(1); IpInvRow(2); IpInvRow(3);
    IpInvRow(4); IpInvRow(5); IpInvRow(6); IpInvRow(7);
  }

  lemma IpOfIpInv(r: nat, c: nat)
    requires r < 8 && c < 8
    ensures var k := IpInvEntry(r, c) - 1; 0 <= k < 64 && IpEntry(k / 8, k % 8) == 8 * r + c + 1
  {}

  lemma IpInvOfIp(r: nat, c: nat)
    requires r < 8 && c < 8
    ensures var k := IpEntry(r, c) - 1; 0 <= k < 64 && IpInvEntry(k / 8, k % 8) == 8 * r + c + 1
  {}

  lemma TablesAreInverse()
    ensures Undoes(Ip(), IpInv()) && Undoes(IpInv(), Ip())
  {
    hide IpEntry, IpInvEntry;
    forall i | 0 <= i < 64
      ensures Ip()[IpInv()[i] - 1] == i + 1 && IpInv()[Ip()[i] - 1] == i + 1
    {
      IpOfIpInv(i / 8, i % 8);
      IpInvOfIp(i / 8, i % 8);
    }
  }

  function PermuteBytes(s: seq<bv8>, table: seq<nat>): (r: seq<bv8>)
    requires |table| % 8 == 0 && forall i :: 0 <= i < |table| ==> 1 <= table[i] <= 8 * |s|
    ensures |r| == |table| / 8
  {
    FromBits(Permute(Bits(s), table))
  }

  lemma PermuteBytesUndone(s: seq<bv8>, first: seq<nat>, second: seq<nat>)
    requires Undoes(first, second) && |first| == 8 * |s|
    ensures |PermuteBytes(s, first)| == |s|
    ensures PermuteBytes(PermuteBytes(s, first), second) == s
  {
    hide Bits, FromBits, Permute;
    BitsOfFromBits(Permute(Bits(s), first));
    PermuteUndone(Bits(s), first, second);
    FromBitsOfBits(s);
  }

  function Initial(b: Block): Block {
    PermuteBytes(b, Ip())
  }

  function Final(b: Block): Block {
    PermuteBytes(b, IpInv())
  }

  lemma InitialFinal(b: Block)
    ensures Final(Initial(b)) == b && Initial(Final(b)) == b
  {
    hide Ip, IpInv, PermuteBytes;
    TablesAreInverse();
    PermuteBytesUndone(b, Ip(), IpInv());
    PermuteBytesUndone(b, IpInv(), Ip());
  }

  lemma PermutedBit(s: seq<bv8>, table: seq<nat>, i: nat)
    requires |table| % 8 == 0 && (forall i :: 0 <= i < |table| ==> 1 <= table[i] <= 8 * |s|) && i < |table|
    ensures Bits(PermuteBytes(s, table))[i] == Bits(s)[table[i] - 1]
  {
    hide Bits, FromBits;
    BitsOfFromBits(Permute(Bits(s), table));
  }

  /** Where the bits of a block go: bit c of byte r of the permuted block is taken from
      byte 7 - c, the even bits first. */
  lemma InitialBits(b: Block, r: nat, c: nat)
    requires r < 8 && c < 8
    ensures Bits(Initial(b))[8 * r + c] == Bits(b)[8 * (7 - c) + if r < 4 then 2 * r + 1 else 2 * r - 8]
  {
    hide Bits, PermuteBytes, Ip;
    PermutedBit(b, Ip(), 8 * r + c);
    IpAt(r, c);
  }

  // ----- the Feistel network

  /** The halves after the rounds keyed by keys. */
  function Rounds<K>(f: (Half, K) -> Half, keys: seq<K>, l: Half, r: Half): (Half, Half)
    decreases |keys|
  {
    if keys == [] then (l, r) else Rounds(f, keys[1..], r, Xor(l, f(r, keys[0])))
  }

  lemma {:induction false} RoundsAppend<K>(f: (Half, K) -> Half, keys: seq<K>, k: K, l: Half, r: Half)
    ensures var (l', r') := Rounds(f, keys, l, r);
      Rounds(f, keys + [k], l, r) == (r', Xor(l', f(r', k)))
    decreases |keys|
  {
    hide Xor;
    if keys == [] {
      assert keys + [k] == [k] && [k][1..] == [];
    } else {
      assert (keys + [k])[1..] == keys[1..] + [k];
      RoundsAppend(f, keys[1..], k, r, Xor(l, f(r, keys[0])));
    }
  }

  /** Whatever the round function, the rounds with the keys reversed, started
      from the swapped halves, lead back. */
  lemma {:induction false} RoundsReverse<K>(f: (Half, K) -> Half, keys: seq<K>, l: Half, r: Half)
    ensures var (l', r') := Rounds(f, keys, l, r); Rounds(f, Reverse(keys), r', l') == (r, l)
    decreases |keys|
  {
    hide Xor;
    if keys != [] {
      var k, rest := keys[0], keys[1..];
      var m := Xor(l, f(r, k));
      var (l', r') := Rounds(f, rest, r, m);
      RoundsReverse(f, rest, r, m);
      RoundsAppend(f, Reverse(rest), k, r', l');
      XorCancels(l, f(r, k));
    }
  }

  /** Initial permutation, rounds, the halves swapped, inverse permutation. */
  function Encrypt<K>(f: (Half, K) -> Half, keys: seq<K>, block: Block): Block {
    var ip := Initial(block);
    var halves := Rounds(f, keys, ip[..4], ip[4..]);
    Final(halves.1 + halves.0)
  }

  /** The block function with the keys reversed decrypts, whatever the round
      function and the number of rounds. */
  lemma ReversedKeysDecrypt<K>(f: (Half, K) -> Half, keys: seq<K>, block: Block)
    ensures Encrypt(f, Reverse(keys), Encrypt(f, keys, block)) == block
  {
    hide Initial, Final, Rounds, Reverse;
    var ip := Initial(block);
    var (l, r) := Rounds(f, keys, ip[..4], ip[4..]);
    InitialFinal(r + l);
    assert (r + l)[..4] == r && (r + l)[4..] == l;
    RoundsReverse(f, keys, ip[..4], ip[4..]);
    assert ip[..4] + ip[4..] == ip;
    InitialFinal(block);
  }

  /** The halves of a run: the left one is the right one before, the right one is the
      left one before changed by f of the right one and the round's key. */
  ghost predicate Feistel<K>(f: (Half, K) -> Half, keys: seq<K>, l: seq<Half>, r: seq<Half>) {
    |l| == |r| == |keys| + 1 && forall i :: 0 <= i < |keys| ==> FeistelStep(f, keys[i], l, r, i)
  }

  predicate FeistelStep<K>(f: (Half, K) -> Half, k: K, l: seq<Half>, r: seq<Half>, i: nat)
    requires i + 1 < |l| && i + 1 < |r|
  {
    l[i + 1] == r[i] && r[i + 1] == Xor(l[i], f(r[i], k))
  }

  lemma {:induction false} RoundsAreFeistel<K>(f: (Half, K) -> Half, keys: seq<K>, l: seq<Half>, r: seq<Half>, n: nat)
    requires Feistel(f, keys, l, r) && n <= |keys|
    ensures Rounds(f, keys[..n], l[0], r[0]) == (l[n], r[n])
    decreases n
  {
    hide Xor, Rounds;
    if n == 0 {
      assert keys[..0] == [];
      NoRounds(f, l[0], r[0]);
    } else {
      RoundsAreFeistel(f, keys, l, r, n - 1);
      assert keys[..n] == keys[..n - 1] + [keys[n - 1]];
      RoundsAppend(f, keys[..n - 1], keys[n - 1], l[0], r[0]);
      assert FeistelStep(f, keys[n - 1], l, r, n - 1);
    }
  }

  lemma NoRounds<K>(f: (Half, K) -> Half, l: Half, r: Half)
    ensures Rounds(f, [], l, r) == (l, r)
  {}

  function Joined(l: Half, r: Half): Block {
    var left: seq<bv8>, right: seq<bv8> := l, r;
    left + right
  }

  /** The block function is the Feistel network of FIPS 46-3: the initial permutation,
      the rounds, the last halves swapped, the inverse permutation. */
  lemma EncryptIsFeistel<K>(f: (Half, K) -> Half, keys: seq<K>, block: Block, l: seq<Half>, r: seq<Half>)
    requires Feistel(f, keys, l, r) && Joined(l[0], r[0]) == Initial(block)
    ensures Initial(Encrypt(f, keys, block)) == Joined(r[|keys|], l[|keys|])
  {
    hide Xor, Rounds, Initial, Final, FeistelStep;
    var ip := Initial(block);
    assert ip[..4] == l[0] && ip[4..] == r[0];
    RoundsAreFeistel(f, keys, l, r, |keys|);
    assert keys[..|keys|] == keys;
    InitialFinal(Joined(r[|keys|], l[|keys|]));
  }

  /** des_cfb_iteration: bits are permuted one by one into the buffers and the
      rounds overwrite the two halves. */
  method Iteration<K>(f: (Half, K) -> Half, keys: seq<K>, block: Block) returns (cipher: Block)
    ensures cipher == Encrypt(f, keys, block)
  {
    hide Bits, Permute, FromBits, Xor, Ip, IpInv;
    var ip := new bv8[8];
    PermuteInto(block, Ip(), ip);
    FromBitsOfBits(ip[..]);
    assert ip[..] == Initial(block);
    var ln_1: Half, rn_1: Half := ip[..4], ip[4..];
    assert ip[..4] == Initial(block)[..4] && ip[4..] == Initial(block)[4..];
    ghost var start := (ln_1, rn_1);
    for i := 0 to |keys|
      invariant Rounds(f, keys[i..], ln_1, rn_1) == Rounds(f, keys, start.0, start.1)
    {
      var ln := rn_1;
      var rn := Xor(ln_1, f(rn_1, keys[i]));
      assert keys[i..][1..] == keys[i + 1..];
      ln_1 := ln;
      rn_1 := rn;
    }
    assert keys[|keys|..] == [];
    var rnln: Block := rn_1 + ln_1;
    var out := new bv8[8];
    PermuteInto(rnln, IpInv(), out);
    FromBitsOfBits(out[..]);
    cipher := out[..];
  }
}
