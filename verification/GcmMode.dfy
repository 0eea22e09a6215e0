/** aes_gcm in aes_gcm.cc: 32-bit counter mode over full blocks and the tag.
    The block cipher is a parameter; lengths are the machine's 64-bit sizes. */
module GcmMode {
  import opened Arith
  import opened Bytes
  import opened Gf2Poly
  import opened Gcm
  import opened Ghash

  const TWO_32: nat := 0x1_0000_0000

  /** A function on 16-byte blocks, such as AES under a fixed key. */
  ghost predicate BlockCipher(E: seq<bv8> -> seq<bv8>) {
    forall b {:trigger E(b)} :: |b| == 16 ==> |E(b)| == 16
  }

  // ----- the counter

  /** ++ctr on 32 bits, skipping zero. */
  function Next(ctr: nat): nat {
    var c := (ctr + 1) % TWO_32;
    if c == 0 then 1 else c
  }

  /** The counter used for block i; the count starts from 1, which is the
      counter of the tag. */
  function Counter(i: nat): nat {
    if i == 0 then Next(1) else Next(Counter(i - 1))
  }

  lemma {:induction false} CounterClosedForm(i: nat)
    ensures Counter(i) == (i + 1) % (TWO_32 - 1) + 1
  {
    hide Next;
    NextCyclic(0);
    if i > 0 {
      CounterClosedForm(i - 1);
      ModStep(i, TWO_32 - 1);
      NextCyclic(i % (TWO_32 - 1));
    }
  }

  lemma NextCyclic(r: nat)
    requires r < TWO_32 - 1
    ensures Next(r + 1) == if r + 1 == TWO_32 - 1 then 1 else r + 2
  {}

  ghost predicate CountersDistinct(n: nat) {
    && (forall i :: 0 <= i < n ==> Counter(i) != 1)
    && (forall i, j :: 0 <= i < j < n ==> Counter(i) != Counter(j))
  }

  /** A run never reuses a counter, nor the tag's, exactly when it has at most
      2^32 - 2 blocks. */
  lemma CounterReuse(n: nat)
    ensures CountersDistinct(n) <==> n <= TWO_32 - 2
  {
    hide Counter;
    if n <= TWO_32 - 2 {
      forall i | 0 <= i < n ensures Counter(i) == i + 2 {
        CounterClosedForm(i);
      }
    } else {
      CounterClosedForm(TWO_32 - 2);
      assert Counter(TWO_32 - 2) == 1;
    }
  }

  function CounterBlock(iv: seq<bv8>, ctr: nat): (b: seq<bv8>)
    requires |iv| == 12
    ensures |b| == 16
  {
    iv + BigEndian(ctr, 4)
  }

  /** Within the limit of CounterReuse, no two inputs given to the block cipher
      are equal, the tag's included. */
  lemma CounterBlocksDistinct(iv: seq<bv8>, i: nat, j: nat)
    requires |iv| == 12 && i < j <= TWO_32 - 3
    ensures CounterBlock(iv, Counter(i)) != CounterBlock(iv, Counter(j))
    ensures CounterBlock(iv, Counter(i)) != CounterBlock(iv, 1)
    ensures CounterBlock(iv, Counter(j)) != CounterBlock(iv, 1)
  {
    hide Counter, BigEndian;
    CounterClosedForm(i);
    CounterClosedForm(j);
    BlocksDiffer(iv, Counter(i), Counter(j));
    BlocksDiffer(iv, Counter(i), 1);
    BlocksDiffer(iv, Counter(j), 1);
  }

  lemma BlocksDiffer(iv: seq<bv8>, m: nat, n: nat)
    requires |iv| == 12 && m < TWO_32 && n < TWO_32 && m != n
    ensures CounterBlock(iv, m) != CounterBlock(iv, n)
  {
    hide BigEndian;
    assert Pow256(4) == TWO_32 by {
      assert Pow256(1) == 256 && Pow256(2) == 65536 && Pow256(3) == 16777216;
    }
    assert CounterBlock(iv, m)[12..] == BigEndian(m, 4);
    assert CounterBlock(iv, n)[12..] == BigEndian(n, 4);
    if CounterBlock(iv, m) == CounterBlock(iv, n) {
      BigEndianInjective(m, n, 4);
    }
  }

  // ----- counter mode

  ghost function KeyStream(E: seq<bv8> -> seq<bv8>, iv: seq<bv8>, n: nat): (s: seq<bv8>)
    requires BlockCipher(E) && |iv| == 12
    ensures |s| == 16 * n
  {
    if n == 0 then [] else KeyStream(E, iv, n - 1) + E(CounterBlock(iv, Counter(n - 1)))
  }

  function FullBlocks(s: seq<bv8>): (r: seq<bv8>)
    ensures |r| == 16 * (|s| / 16) <= |s|
  {
    s[..16 * (|s| / 16)]
  }

  ghost function Crypt(E: seq<bv8> -> seq<bv8>, iv: seq<bv8>, text: seq<bv8>): (r: seq<bv8>)
    requires BlockCipher(E) && |iv| == 12 && |text| % 16 == 0
    ensures |r| == |text|
  {
    Xor(text, KeyStream(E, iv, |text| / 16))
  }

  /** Counter mode is its own inverse. */
  lemma CryptTwice(E: seq<bv8> -> seq<bv8>, iv: seq<bv8>, text: seq<bv8>)
    requires BlockCipher(E) && |iv| == 12 && |text| % 16 == 0
    ensures Crypt(E, iv, Crypt(E, iv, text)) == text
  {
    XorCancels(text, KeyStream(E, iv, |text| / 16));
  }

  function LengthBlock(aad: nat, text: nat): (b: seq<bv8>)
    ensures |b| == 16
  {
    BigEndian(8 * aad % TWO_64, 8) + BigEndian(8 * text % TWO_64, 8)
  }

  /** The block holds the two lengths in bits modulo 2^64, so the lengths themselves
      exactly when both fit. */
  lemma LengthBlockHolds(aad: nat, text: nat)
    ensures var b := LengthBlock(aad, text);
      && FromBigEndian(b[..8]) == 8 * aad % TWO_64 && FromBigEndian(b[8..]) == 8 * text % TWO_64
      && (FromBigEndian(b[..8]) == 8 * aad && FromBigEndian(b[8..]) == 8 * text <==> 8 * aad < TWO_64 && 8 * text < TWO_64)
  {
    hide BigEndian, FromBigEndian, Pow256;
    var x, y := 8 * aad % TWO_64, 8 * text % TWO_64;
    Pow256Of8();
    BigEndianRoundTrip(x, 8);
    BigEndianRoundTrip(y, 8);
    assert LengthBlock(aad, text)[..8] == BigEndian(x, 8) && LengthBlock(aad, text)[8..] == BigEndian(y, 8);
  }

  /** The tag of a message whose ciphertext buffer holds cipher. */
  ghost function Tag(E: seq<bv8> -> seq<bv8>, iv: seq<bv8>, aad: seq<bv8>, cipher: seq<bv8>): Poly
    requires BlockCipher(E) && |iv| == 12
  {
    Add(PolyOf(E(CounterBlock(iv, 1))),
        Hash(aad + cipher + LengthBlock(|aad|, |cipher|), PolyOf(E(Zeros(16)))))
  }

  // ----- what the block cipher is given

  /** The four bytes of a counter, most significant first. */
  lemma CounterBytes(iv: seq<bv8>, n: nat)
    requires |iv| == 12
    ensures CounterBlock(iv, n) ==
      iv + [ToByte(n / 0x100_0000 % 256), ToByte(n / 0x1_0000 % 256), ToByte(n / 0x100 % 256), ToByte(n % 256)]
  {
    hide BigEndian, ToByte;
    assert Pow256(1) == 0x100 && Pow256(2) == 0x1_0000 && Pow256(3) == 0x100_0000;
    BigEndianAt(n, 4, 0);
    BigEndianAt(n, 4, 1);
    BigEndianAt(n, 4, 2);
    BigEndianAt(n, 4, 3);
  }

  /** Block i of the key stream is the cipher of the iv and the bytes of i + 2, as long
      as that has 32 bits; after 2^32 - 1 the count goes on with 1. */
  lemma {:induction false} KeyStreamAt(E: seq<bv8> -> seq<bv8>, iv: seq<bv8>, n: nat, i: nat)
    requires BlockCipher(E) && |iv| == 12 && i < n
    ensures var c := (i + 1) % 0xffff_ffff + 1;
      && (i + 2 <= 0xffff_ffff ==> c == i + 2)
      && KeyStream(E, iv, n)[16 * i..16 * i + 16] ==
         E(iv + [ToByte(c / 0x100_0000 % 256), ToByte(c / 0x1_0000 % 256), ToByte(c / 0x100 % 256), ToByte(c % 256)])
    decreases n
  {
    hide Counter, CounterBlock, ToByte;
    if i == n - 1 {
      CounterClosedForm(i);
      CounterBytes(iv, Counter(i));
    } else {
      KeyStreamAt(E, iv, n - 1, i);
      assert KeyStream(E, iv, n)[16 * i..16 * i + 16] == KeyStream(E, iv, n - 1)[16 * i..16 * i + 16];
    }
  }

  /** The tag is the hash of data, text and lengths under the cipher of the zero block,
      masked by the cipher of the iv and the counter 1, which no block uses. */
  lemma TagIsMaskedHash(E: seq<bv8> -> seq<bv8>, iv: seq<bv8>, aad: seq<bv8>, c: seq<bv8>)
    requires BlockCipher(E) && |iv| == 12
    ensures Add(Tag(E, iv, aad, c), Hash(aad + c + LengthBlock(|aad|, |c|), PolyOf(E(Zeros(16))))) == PolyOf(E(iv + [0, 0, 0, 1]))
  {
    hide CounterBlock, PolyOf, Hash, LengthBlock, ToByte, Add;
    CounterBytes(iv, 1);
    SmallBytes();
    AddTwice(PolyOf(E(iv + [0, 0, 0, 1])), Hash(aad + c + LengthBlock(|aad|, |c|), PolyOf(E(Zeros(16)))));
  }

  /** Counter mode over the full blocks of plain: the inner loops of aes_gcm. */
  method CounterMode(E: seq<bv8> -> seq<bv8>, plain: seq<bv8>, iv: seq<bv8>, cipher: array<bv8>)
    requires BlockCipher(E) && |iv| == 12 && cipher.Length >= |plain|
    modifies cipher
    ensures cipher[..16 * (|plain| / 16)] == Crypt(E, iv, FullBlocks(plain))
    ensures cipher[16 * (|plain| / 16)..] == old(cipher[16 * (|plain| / 16)..])
  {
    hide Counter, BigEndian, Xor, Next, CounterBlock;
    var ctr := 1;
    var i := 0;
    ghost var was := cipher[..];
    assert cipher[..0] == Xor(plain[..0], []);
    while i < |plain| / 16
      invariant 0 <= i <= |plain| / 16
      invariant ctr == if i == 0 then 1 else Counter(i - 1)
      invariant cipher[..16 * i] == Xor(plain[..16 * i], KeyStream(E, iv, i))
      invariant cipher[16 * i..] == was[16 * i..]
    {
      ctr := Next(ctr);
      CounterStep(i);
      var pad := E(CounterBlock(iv, ctr));
      ghost var before := cipher[..];
      EncryptBlock(pad, plain, i, cipher);
      AppendBlock(before, cipher[..], plain, i, KeyStream(E, iv, i), pad);
      RestOf(was, before, cipher[..], 16 * i);
      i := i + 1;
    }
  }

  lemma AppendBlock(before: seq<bv8>, after: seq<bv8>, plain: seq<bv8>, i: nat, stream: seq<bv8>, pad: seq<bv8>)
    requires |before| == |after| >= |plain| >= 16 * i + 16 && |stream| == 16 * i && |pad| == 16
    requires before[..16 * i] == Xor(plain[..16 * i], stream) && after[..16 * i] == before[..16 * i]
    requires after[16 * i..16 * i + 16] == Xor(plain[16 * i..16 * i + 16], pad)
    ensures after[..16 * (i + 1)] == Xor(plain[..16 * (i + 1)], stream + pad)
  {
    var n := 16 * i;
    assert after[..n + 16] == after[..n] + after[n..n + 16];
    assert plain[..n + 16] == plain[..n] + plain[n..n + 16];
    XorAppend(plain[..n], plain[n..n + 16], stream, pad);
  }

  lemma XorAppend(a: seq<bv8>, b: seq<bv8>, c: seq<bv8>, d: seq<bv8>)
    requires |a| == |c| && |b| == |d|
    ensures Xor(a + b, c + d) == Xor(a, c) + Xor(b, d)
  {}

  lemma RestOf(was: seq<bv8>, before: seq<bv8>, after: seq<bv8>, n: nat)
    requires |was| == |before| == |after| >= n + 16
    requires before[n..] == was[n..] && after[n + 16..] == before[n + 16..]
    ensures after[n + 16..] == was[n + 16..]
  {
    assert before[n + 16..] == before[n..][16..];
    assert was[n + 16..] == was[n..][16..];
  }

  lemma CounterStep(i: nat)
    ensures Counter(i) == Next(if i == 0 then 1 else Counter(i - 1))
  {}

  method EncryptBlock(pad: seq<bv8>, plain: seq<bv8>, i: nat, cipher: array<bv8>)
    requires |pad| == 16 && 16 * i + 16 <= |plain| <= cipher.Length
    modifies cipher
    ensures cipher[..16 * i] == old(cipher[..16 * i])
    ensures cipher[16 * i..16 * i + 16] == Xor(plain[16 * i..16 * i + 16], pad)
    ensures cipher[16 * i + 16..] == old(cipher[16 * i + 16..])
  {
    for j := 0 to 16
      invariant forall t :: 0 <= t < 16 * i ==> cipher[t] == old(cipher[t])
      invariant forall t :: 0 <= t < j ==> cipher[16 * i + t] == plain[16 * i + t] ^ pad[t]
      invariant forall t :: 16 * i + j <= t < cipher.Length ==> cipher[t] == old(cipher[t])
    {
      cipher[16 * i + j] := pad[j] ^ plain[16 * i + j];
    }
  }

  /** aes_gcm. The bytes of cipher past the last full block are not written,
      yet they are hashed into the tag as they stand. */
  method AesGcm(E: seq<bv8> -> seq<bv8>, plain: seq<bv8>, iv: seq<bv8>, aad: seq<bv8>,
                cipher: array<bv8>, tag: array<bv8>)
    requires BlockCipher(E) && |iv| == 12
    requires cipher.Length >= |plain| && tag.Length == 16 && cipher != tag
    modifies cipher, tag
    ensures cipher[..16 * (|plain| / 16)] == Crypt(E, iv, FullBlocks(plain))
    ensures cipher[16 * (|plain| / 16)..] == old(cipher[16 * (|plain| / 16)..])
    ensures PolyOf(tag[..]) == Tag(E, iv, aad, cipher[..|plain|])
  {
    hide PolyOf, Hash, Add, BigEndian, KeyStream;
    CounterMode(E, plain, iv, cipher);
    ghost var text := cipher[..];
    var addCipher := aad + cipher[..|plain|] + LengthBlock(|aad|, |plain|);
    var hashKey := E(Zeros(16));
    var y := new bv8[16];
    HashInto(addCipher, hashKey, y);
    var enCounter := E(CounterBlock(iv, 1));
    PolyOfXor(enCounter, y[..]);
    for i := 0 to 16
      invariant forall t :: 0 <= t < i ==> tag[t] == enCounter[t] ^ y[t]
      invariant cipher[..] == text
      invariant PolyOf(y[..]) == Hash(addCipher, PolyOf(hashKey))
      invariant PolyOf(Xor(enCounter, y[..])) == Add(PolyOf(enCounter), PolyOf(y[..]))
    {
      tag[i] := enCounter[i] ^ y[i];
    }
    assert tag[..] == Xor(enCounter, y[..]);
    assert cipher[..|plain|] == text[..|plain|];
  }

  /** Two messages of one length under the same key and iv: the difference of
      their tags is the GHASH of the difference of what was hashed. */
  lemma TagDifference(E: seq<bv8> -> seq<bv8>, iv: seq<bv8>, aad: seq<bv8>, aad': seq<bv8>, c: seq<bv8>, c': seq<bv8>)
    requires BlockCipher(E) && |iv| == 12 && |aad| == |aad'| && |c| == |c'|
    ensures Add(Tag(E, iv, aad, c), Tag(E, iv, aad', c')) ==
            Hash(Xor(aad + c + LengthBlock(|aad|, |c|), aad' + c' + LengthBlock(|aad|, |c|)), PolyOf(E(Zeros(16))))
  {
    hide PolyOf, Add, InField, HashBlocks;
    var l := LengthBlock(|aad|, |c|);
    var h := PolyOf(E(Zeros(16)));
    var x, y := aad + c + l, aad' + c' + l;
    PolyOfInField(E(Zeros(16)));
    HashIsLinear(x, y, |x| / 16, h);
    AddCancelsCommon(PolyOf(E(CounterBlock(iv, 1))), Hash(x, h), Hash(y, h));
  }

  lemma AddTwice(m: Poly, x: Poly)
    ensures Add(Add(m, x), x) == m
  {}

  lemma AddCancelsCommon(m: Poly, x: Poly, y: Poly)
    ensures Add(Add(m, x), Add(m, y)) == Add(x, y)
  {}
}
