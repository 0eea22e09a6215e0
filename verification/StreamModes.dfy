/** The byte-wise modes: des_cfb, aes_ofb and aes_ctr.  The block function is a
    parameter.  Each step writes a whole block at the current position of the
    output and keeps only its first byte, so the output needs room for one block
    less one byte beyond the message. */
module StreamModes {
  import opened Arith
  import opened Bytes
  import opened Buffers

  ghost predicate Sized(e: seq<bv8> -> seq<bv8>, size: nat) {
    forall b {:trigger e(b)} :: |b| == size ==> |e(b)| == size
  }

  function First(e: seq<bv8> -> seq<bv8>, buffer: seq<bv8>): bv8 {
    if e(buffer) == [] then 0 else e(buffer)[0]
  }

  function Shift(buffer: seq<bv8>, x: bv8): (r: seq<bv8>)
    ensures |r| == |buffer|
  {
    if buffer == [] then [] else buffer[1..] + [x]
  }

  /** The bytes that precede position i of s when s follows iv. */
  function Before(iv: seq<bv8>, s: seq<bv8>, i: nat): (r: seq<bv8>)
    requires i <= |s|
    ensures |r| == |iv|
  {
    (iv + s)[i..i + |iv|]
  }

  lemma BeforeNext(iv: seq<bv8>, s: seq<bv8>, i: nat)
    requires i < |s|
    ensures Before(iv, s, 0) == iv
    ensures Before(iv, s, i + 1) == Shift(Before(iv, s, i), s[i])
  {}

  lemma BeforeTail(iv: seq<bv8>, s: seq<bv8>, i: nat)
    requires 0 < i <= |s|
    ensures Before(Shift(iv, s[0]), s[1..], i - 1) == Before(iv, s, i)
  {
    if iv != [] {
      assert Shift(iv, s[0]) + s[1..] == (iv + s)[1..];
    }
  }

  // ----- cipher feedback

  function CfbEncrypt(e: seq<bv8> -> seq<bv8>, iv: seq<bv8>, plain: seq<bv8>): (cipher: seq<bv8>)
    ensures |cipher| == |plain|
    decreases |plain|
  {
    if plain == [] then [] else
      var c := XorByte(plain[0], First(e, iv));
      [c] + CfbEncrypt(e, Shift(iv, c), plain[1..])
  }

  function CfbDecrypt(e: seq<bv8> -> seq<bv8>, iv: seq<bv8>, cipher: seq<bv8>): (plain: seq<bv8>)
    ensures |plain| == |cipher|
    decreases |cipher|
  {
    if cipher == [] then [] else
      [XorByte(cipher[0], First(e, iv))] + CfbDecrypt(e, Shift(iv, cipher[0]), cipher[1..])
  }

  lemma {:induction false} CfbRoundTrip(e: seq<bv8> -> seq<bv8>, iv: seq<bv8>, plain: seq<bv8>)
    ensures CfbDecrypt(e, iv, CfbEncrypt(e, iv, plain)) == plain
    decreases |plain|
  {
    hide XorByte, First, Shift;
    if plain != [] {
      var c := XorByte(plain[0], First(e, iv));
      var rest := CfbEncrypt(e, Shift(iv, c), plain[1..]);
      assert ([c] + rest)[1..] == rest;
      XorByteCancels(plain[0], First(e, iv));
      CfbRoundTrip(e, Shift(iv, c), plain[1..]);
    }
  }

  /** A plain byte depends on its cipher byte and one block of cipher bytes (or
      IV) before it. */
  lemma {:induction false} CfbDecryptAt(e: seq<bv8> -> seq<bv8>, iv: seq<bv8>, cipher: seq<bv8>, i: nat)
    requires i < |cipher|
    ensures CfbDecrypt(e, iv, cipher)[i] == XorByte(cipher[i], First(e, Before(iv, cipher, i)))
    decreases i
  {
    hide XorByte, First, Shift, Before;
    if i == 0 {
      BeforeNext(iv, cipher, 0);
    } else {
      CfbDecryptAt(e, Shift(iv, cipher[0]), cipher[1..], i - 1);
      BeforeTail(iv, cipher, i);
    }
  }

  /** Self-synchronisation: wherever two streams, whatever their IVs and whatever
      came earlier, agree on a block of bytes and the byte after it, they decrypt
      that byte alike. */
  lemma CfbSynchronises(e: seq<bv8> -> seq<bv8>, v: seq<bv8>, c: seq<bv8>, i: nat, w: seq<bv8>, d: seq<bv8>, j: nat)
    requires |v| == |w| && |v| <= i < |c| && |w| <= j < |d|
    requires c[i - |v|..i + 1] == d[j - |w|..j + 1]
    ensures CfbDecrypt(e, v, c)[i] == CfbDecrypt(e, w, d)[j]
  {
    hide CfbDecrypt, First;
    CfbDecryptAt(e, v, c, i);
    CfbDecryptAt(e, w, d, j);
    assert Before(v, c, i) == c[i - |v|..i + 1][..|v|] && Before(w, d, j) == d[j - |w|..j + 1][..|w|];
    assert c[i] == c[i - |v|..i + 1][|v|] && d[j] == d[j - |w|..j + 1][|w|];
  }

  lemma {:induction false} CfbEncryptAt(e: seq<bv8> -> seq<bv8>, iv: seq<bv8>, plain: seq<bv8>, i: nat)
    requires i < |plain|
    ensures var cipher := CfbEncrypt(e, iv, plain);
      cipher[i] == XorByte(plain[i], First(e, Before(iv, cipher, i)))
    decreases i
  {
    hide XorByte, First, Shift, Before;
    var cipher := CfbEncrypt(e, iv, plain);
    if i == 0 {
      BeforeNext(iv, cipher, 0);
    } else {
      CfbEncryptAt(e, Shift(iv, cipher[0]), plain[1..], i - 1);
      assert cipher[1..] == CfbEncrypt(e, Shift(iv, cipher[0]), plain[1..]);
      BeforeTail(iv, cipher, i);
    }
  }

  // ----- output feedback

  /** The key stream: every byte is fed back. */
  function OfbStream(e: seq<bv8> -> seq<bv8>, iv: seq<bv8>, n: nat): (s: seq<bv8>)
    ensures |s| == n
    decreases n
  {
    if n == 0 then [] else [First(e, iv)] + OfbStream(e, Shift(iv, First(e, iv)), n - 1)
  }

  lemma {:induction false} OfbStreamAt(e: seq<bv8> -> seq<bv8>, iv: seq<bv8>, n: nat, i: nat)
    requires i < n
    ensures var s := OfbStream(e, iv, n); s[i] == First(e, Before(iv, s, i))
    decreases i
  {
    hide First, Shift, Before;
    var s := OfbStream(e, iv, n);
    if i == 0 {
      BeforeNext(iv, s, 0);
    } else {
      OfbStreamAt(e, Shift(iv, s[0]), n - 1, i - 1);
      assert s[1..] == OfbStream(e, Shift(iv, s[0]), n - 1);
      BeforeTail(iv, s, i);
    }
  }

  function Ofb(e: seq<bv8> -> seq<bv8>, iv: seq<bv8>, text: seq<bv8>): (r: seq<bv8>)
    ensures |r| == |text|
  {
    Xor(text, OfbStream(e, iv, |text|))
  }

  /** Decryption is encryption. */
  lemma OfbTwice(e: seq<bv8> -> seq<bv8>, iv: seq<bv8>, text: seq<bv8>)
    ensures Ofb(e, iv, Ofb(e, iv, text)) == text
  {
    hide Xor, OfbStream;
    XorCancels(text, OfbStream(e, iv, |text|));
  }

  /** The stream has a period: once a block of it repeats, everything after the
      block repeats. */
  lemma {:induction false} OfbRepeats(e: seq<bv8> -> seq<bv8>, iv: seq<bv8>, n: nat, i: nat, j: nat, k: nat)
    requires i <= j && j + k < n
    requires var s := OfbStream(e, iv, n); Before(iv, s, i) == Before(iv, s, j)
    ensures var s := OfbStream(e, iv, n); s[i + k] == s[j + k] && Before(iv, s, i + k) == Before(iv, s, j + k)
    decreases k
  {
    hide First, Shift, Before, OfbStream;
    var s := OfbStream(e, iv, n);
    if k > 0 {
      OfbRepeats(e, iv, n, i, j, k - 1);
      BeforeNext(iv, s, i + k - 1);
      BeforeNext(iv, s, j + k - 1);
    }
    OfbStreamAt(e, iv, n, i + k);
    OfbStreamAt(e, iv, n, j + k);
  }

  // ----- counter mode

  /** The 64-bit counter, most significant byte first, over the first half of
      the IV. */
  function CounterBlock(iv: seq<bv8>, ctr: nat): (b: seq<bv8>)
    requires |iv| == 16
    ensures |b| == 16
  {
    Xor(iv[..8], BigEndian(ctr, 8)) + iv[8..]
  }

  /** The block byte by byte: the first eight bytes of the IV are changed by the bytes
      of the counter, the others are kept. */
  lemma CounterBlockAt(iv: seq<bv8>, ctr: nat, t: nat)
    requires |iv| == 16 && t < 16
    ensures CounterBlock(iv, ctr)[t] ==
      if t < 8 then iv[t] ^ ToByte(ctr / Pow256(7 - t) % 256) else iv[t]
  {
    hide BigEndian, Pow256, ToByte;
    if t < 8 { BigEndianAt(ctr, 8, t); }
  }

  /** Two counter blocks are the same exactly when the counters agree modulo
      2^64. */
  lemma CounterBlocksEqualIff(iv: seq<bv8>, i: nat, j: nat)
    requires |iv| == 16
    ensures CounterBlock(iv, i) == CounterBlock(iv, j) <==> i % TWO_64 == j % TWO_64
  {
    hide Xor, BigEndian, Pow256;
    Pow256Of8();
    BigEndianMod(i, 8);
    BigEndianMod(j, 8);
    BigEndianRoundTrip(i, 8);
    BigEndianRoundTrip(j, 8);
    XorCancels(BigEndian(i, 8), iv[..8]);
    XorCancels(BigEndian(j, 8), iv[..8]);
    XorCommutes(iv[..8], BigEndian(i, 8));
    XorCommutes(iv[..8], BigEndian(j, 8));
    assert CounterBlock(iv, i)[..8] == Xor(iv[..8], BigEndian(i, 8));
    assert CounterBlock(iv, j)[..8] == Xor(iv[..8], BigEndian(j, 8));
  }

  function KeyByte(e: seq<bv8> -> seq<bv8>, iv: seq<bv8>, i: nat): bv8
    requires |iv| == 16
  {
    First(e, CounterBlock(iv, i))
  }

  function CtrStream(e: seq<bv8> -> seq<bv8>, iv: seq<bv8>, n: nat): (s: seq<bv8>)
    requires |iv| == 16
    ensures |s| == n
  {
    seq(n, i requires 0 <= i < n => KeyByte(e, iv, i))
  }

  /** Byte i is changed by the first byte of the cipher of counter block i. */
  lemma CtrAt(e: seq<bv8> -> seq<bv8>, iv: seq<bv8>, text: seq<bv8>, i: nat)
    requires |iv| == 16 && Sized(e, 16) && i < |text|
    ensures Ctr(e, iv, text)[i] == text[i] ^ e(CounterBlock(iv, i))[0]
  {
    hide CounterBlock;
  }

  function Ctr(e: seq<bv8> -> seq<bv8>, iv: seq<bv8>, text: seq<bv8>): (r: seq<bv8>)
    requires |iv| == 16
    ensures |r| == |text|
  {
    Xor(text, CtrStream(e, iv, |text|))
  }

  lemma CtrTwice(e: seq<bv8> -> seq<bv8>, iv: seq<bv8>, text: seq<bv8>)
    requires |iv| == 16
    ensures Ctr(e, iv, Ctr(e, iv, text)) == text
  {
    hide Xor, CtrStream;
    XorCancels(text, CtrStream(e, iv, |text|));
  }

  // ----- the loops

  /** What the output holds after i steps: the message so far, the rest of the
      last block, and beyond it what was there. */
  ghost predicate Written(out: seq<bv8>, was: seq<bv8>, result: seq<bv8>, block: seq<bv8>, i: nat) {
    && i <= |result| && |out| == |was|
    && (i == 0 ==> out == was)
    && (i > 0 ==> |block| > 0 && i - 1 + |block| <= |was|
                  && out == result[..i] + block[1..] + was[i - 1 + |block|..])
  }

  lemma WrittenNext(out: seq<bv8>, was: seq<bv8>, result: seq<bv8>, block: seq<bv8>, i: nat, next: seq<bv8>)
    requires Written(out, was, result, block, i) && i < |result|
    requires |next| > 0 && i + |next| <= |was| && (i > 0 ==> |next| == |block|)
    ensures Written((out[..i] + next + out[i + |next|..])[i := result[i]], was, result, next, i + 1)
  {
    assert out[..i] == result[..i];
    assert out[i + |next|..] == was[i + |next|..];
    assert (out[..i] + next + out[i + |next|..])[i := result[i]]
        == result[..i] + [result[i]] + next[1..] + was[i + |next|..];
    assert result[..i + 1] == result[..i] + [result[i]];
  }

  lemma WrittenPrefix(out: seq<bv8>, was: seq<bv8>, result: seq<bv8>, block: seq<bv8>)
    requires Written(out, was, result, block, |result|)
    ensures |result| <= |out| && out[..|result|] == result
  {}

  /** One step of a mode: the block is stored whole at position i, then its first
      byte is replaced. */
  method StoreStep(block: seq<bv8>, cipher: array<bv8>, i: nat, x: bv8)
    requires |block| > 0 && i + |block| <= cipher.Length
    modifies cipher
    ensures cipher[..] == (old(cipher[..i]) + block + old(cipher[i + |block|..]))[i := x]
  {
    CopyInto(block, cipher, i);
    cipher[i] := x;
  }

  lemma Start(iv: seq<bv8>, out: seq<bv8>, result: seq<bv8>)
    ensures Before(iv, result, 0) == iv && Written(out, out, result, [], 0)
  {}

  /** The block stored by the step before position i of the feedback modes. */
  function Last(e: seq<bv8> -> seq<bv8>, iv: seq<bv8>, s: seq<bv8>, i: nat): seq<bv8>
    requires i <= |s|
  {
    if i == 0 then [] else e(Before(iv, s, i - 1))
  }

  /** des_cfb. */
  method CfbInto(e: seq<bv8> -> seq<bv8>, plain: array<bv8>, length: nat, iv: seq<bv8>, cipher: array<bv8>)
    requires |iv| > 0 && Sized(e, |iv|)
    requires plain != cipher && length <= plain.Length
    requires length > 0 ==> length + |iv| - 1 <= cipher.Length
    modifies cipher
    ensures length <= cipher.Length && cipher[..length] == CfbEncrypt(e, iv, plain[..length])
    ensures Written(cipher[..], old(cipher[..]), cipher[..length], Last(e, iv, cipher[..length], length), length)
  {
    hide XorByte, Written, Before, CfbEncrypt;
    var buffer := new bv8[|iv|];
    CopyInto(iv, buffer, 0);
    ghost var c := CfbEncrypt(e, iv, plain[..length]);
    Start(iv, cipher[..], c);
    for i := 0 to length
      invariant buffer[..] == Before(iv, c, i)
      invariant unchanged(plain)
      invariant Written(cipher[..], old(cipher[..]), c, Last(e, iv, c, i), i)
    {
      var block := e(buffer[..]);
      CfbEncryptAt(e, iv, plain[..length], i);
      BeforeNext(iv, c, i);
      WrittenNext(cipher[..], old(cipher[..]), c, Last(e, iv, c, i), i, block);
      StoreStep(block, cipher, i, XorByte(plain[i], block[0]));
      ShiftIn(buffer, cipher[i]);
    }
    WrittenPrefix(cipher[..], old(cipher[..]), c, Last(e, iv, c, length));
  }

  /** aes_ofb: the byte fed back is read from the output before the message byte
      is added to it. */
  method OfbInto(e: seq<bv8> -> seq<bv8>, plain: array<bv8>, length: nat, iv: seq<bv8>, cipher: array<bv8>)
    requires |iv| > 0 && Sized(e, |iv|)
    requires plain != cipher && length <= plain.Length
    requires length > 0 ==> length + |iv| - 1 <= cipher.Length
    modifies cipher
    ensures length <= cipher.Length && cipher[..length] == Ofb(e, iv, plain[..length])
    ensures Written(cipher[..], old(cipher[..]), cipher[..length], Last(e, iv, OfbStream(e, iv, length), length), length)
  {
    hide XorByte, Xor, Written, Before, OfbStream;
    var buffer := new bv8[|iv|];
    CopyInto(iv, buffer, 0);
    ghost var s := OfbStream(e, iv, length);
    ghost var c := Ofb(e, iv, plain[..length]);
    Start(iv, cipher[..], c);
    Start(iv, cipher[..], s);
    for i := 0 to length
      invariant buffer[..] == Before(iv, s, i)
      invariant unchanged(plain)
      invariant Written(cipher[..], old(cipher[..]), c, Last(e, iv, s, i), i)
    {
      var block := e(buffer[..]);
      OfbStreamAt(e, iv, length, i);
      BeforeNext(iv, s, i);
      XorAt(plain[..length], s, i);
      WrittenNext(cipher[..], old(cipher[..]), c, Last(e, iv, s, i), i, block);
      ShiftIn(buffer, block[0]);
      StoreStep(block, cipher, i, XorByte(plain[i], block[0]));
    }
    WrittenPrefix(cipher[..], old(cipher[..]), c, Last(e, iv, s, length));
  }

  function LastCtr(e: seq<bv8> -> seq<bv8>, iv: seq<bv8>, i: nat): seq<bv8>
    requires |iv| == 16
  {
    if i == 0 then [] else e(CounterBlock(iv, i - 1))
  }

  /** aes_ctr: the counter is 64 bits wide and wraps. */
  method CtrInto(e: seq<bv8> -> seq<bv8>, plain: array<bv8>, length: nat, iv: seq<bv8>, cipher: array<bv8>)
    requires |iv| == 16 && Sized(e, 16)
    requires plain != cipher && length <= plain.Length
    requires length > 0 ==> length + 15 <= cipher.Length
    modifies cipher
    ensures length <= cipher.Length && cipher[..length] == Ctr(e, iv, plain[..length])
    ensures Written(cipher[..], old(cipher[..]), cipher[..length], LastCtr(e, iv, length), length)
  {
    hide XorByte, Xor, Written, CounterBlock, CtrStream;
    var counter := 0;
    ghost var c := Ctr(e, iv, plain[..length]);
    Start(iv, cipher[..], c);
    for i := 0 to length
      invariant counter == i % TWO_64
      invariant unchanged(plain)
      invariant Written(cipher[..], old(cipher[..]), c, LastCtr(e, iv, i), i)
    {
      CounterBlocksEqualIff(iv, counter, i);
      var block := e(CounterBlock(iv, counter));
      CtrStreamAt(e, iv, length, i);
      XorAt(plain[..length], CtrStream(e, iv, length), i);
      WrittenNext(cipher[..], old(cipher[..]), c, LastCtr(e, iv, i), i, block);
      StoreStep(block, cipher, i, XorByte(plain[i], block[0]));
      ModStep(i, TWO_64);
      counter := (counter + 1) % TWO_64;
    }
    WrittenPrefix(cipher[..], old(cipher[..]), c, LastCtr(e, iv, length));
  }

  lemma CtrStreamAt(e: seq<bv8> -> seq<bv8>, iv: seq<bv8>, n: nat, i: nat)
    requires |iv| == 16 && i < n
    ensures CtrStream(e, iv, n)[i] == First(e, CounterBlock(iv, i))
  {}
}
