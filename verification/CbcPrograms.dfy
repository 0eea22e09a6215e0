/** aes_cbc and sm4_cbc: chaining over the whole blocks of a buffer, in the
    machine's own units (bytes for AES, 32-bit words for SM4). */
module CbcPrograms {
  import opened Buffers
  import opened Bytes
  import opened Sequences
  import Aes
  import Sm4
  import Cbc

  // ----- AES

  predicate GoodKeys(keys: seq<bv8>, total: nat) {
    1 <= total && 16 * total + 16 <= |keys|
  }

  function AesCipher(keys: seq<bv8>, total: nat): Aes.Block -> Aes.Block
    requires GoodKeys(keys, total)
  {
    b => if GoodKeys(keys, total) then Aes.Encrypt(b, keys, total) else b
  }

  function AesInverse(keys: seq<bv8>, total: nat): Aes.Block -> Aes.Block
    requires GoodKeys(keys, total)
  {
    b => if GoodKeys(keys, total) then Aes.Decrypt(b, keys, total) else b
  }

  function AddBlocks(): (Aes.Block, Aes.Block) -> Aes.Block {
    (a, b) => XorBlock(a, b)
  }

  function XorBlock(a: Aes.Block, b: Aes.Block): Aes.Block {
    Xor(a, b)
  }

  lemma XorBlockCancels(a: Aes.Block, b: Aes.Block)
    ensures XorBlock(XorBlock(a, b), a) == b
  {
    forall i | 0 <= i < 16 ensures XorBlock(XorBlock(a, b), a)[i] == b[i] {
      assert (a[i] ^ b[i]) ^ a[i] == b[i];
    }
  }

  /** The first n blocks of a byte sequence. */
  function Blocks(s: seq<bv8>, n: nat): (b: seq<Aes.Block>)
    requires 16 * n <= |s|
    ensures |b| == n
  {
    seq(n, i requires 0 <= i < n => BlockAt(s, i))
  }

  function BlockAt(s: seq<bv8>, i: nat): Aes.Block
    requires 16 * i + 16 <= |s|
  {
    s[16 * i..16 * i + 16]
  }

  function AesCbc(keys: seq<bv8>, total: nat, iv: Aes.Block, plain: seq<Aes.Block>): (cipher: seq<Aes.Block>)
    requires GoodKeys(keys, total)
    ensures |cipher| == |plain|
  {
    Cbc.Encrypt(AesCipher(keys, total), AddBlocks(), iv, plain)
  }

  /** Decryption with the inverse cipher returns the blocks, for every key
      schedule, number of rounds, IV and message. */
  lemma AesCbcRoundTrip(keys: seq<bv8>, total: nat, iv: Aes.Block, plain: seq<Aes.Block>)
    requires GoodKeys(keys, total)
    ensures Cbc.Decrypt(AesInverse(keys, total), AddBlocks(), iv, AesCbc(keys, total, iv, plain)) == plain
  {
    hide Aes.Encrypt, Aes.Decrypt, XorBlock, Cbc.Encrypt, Cbc.Decrypt;
    forall b: Aes.Block ensures AesInverse(keys, total)(AesCipher(keys, total)(b)) == b {
      Aes.DecryptInverts(b, keys, total);
    }
    forall a: Aes.Block, b: Aes.Block ensures AddBlocks()(AddBlocks()(a, b), a) == b {
      XorBlockCancels(a, b);
    }
    Cbc.RoundTrip(AesCipher(keys, total), AesInverse(keys, total), AddBlocks(), iv, plain);
  }

  /** Writing block i leaves the blocks before it and the bytes after it. */
  lemma BlockWritten(before: seq<bv8>, out: Aes.Block, after: seq<bv8>, i: nat, n: nat)
    requires i < n && 16 * n <= |before|
    requires after == before[..16 * i] + out + before[16 * i + 16..]
    ensures BlockAt(after, i) == out
    ensures forall k :: 0 <= k < i ==> BlockAt(after, k) == BlockAt(before, k)
    ensures after[16 * n..] == before[16 * n..]
    ensures after[16 * (i + 1)..] == before[16 * (i + 1)..]
  {}

  lemma NextBlock(was: seq<bv8>, now: seq<bv8>, i: nat)
    requires 16 * i + 16 <= |was| == |now| && was[16 * i..] == now[16 * i..]
    ensures BlockAt(was, i) == BlockAt(now, i) && was[16 * (i + 1)..] == now[16 * (i + 1)..]
  {
    assert BlockAt(was, i) == was[16 * i..][..16] && BlockAt(now, i) == now[16 * i..][..16];
    assert was[16 * (i + 1)..] == was[16 * i..][16..] && now[16 * (i + 1)..] == now[16 * i..][16..];
  }

  /** One block: the cipher works in out and is copied to its place. */
  method CipherBlock(block: Aes.Block, out: array<bv8>, keys: seq<bv8>, total: nat, cipher: array<bv8>, i: nat)
    requires GoodKeys(keys, total) && out.Length == 16 && out != cipher && 16 * i + 16 <= cipher.Length
    modifies out, cipher
    ensures cipher[..] == old(cipher[..16 * i]) + Aes.Encrypt(block, keys, total) + old(cipher[16 * i + 16..])
  {
    hide Aes.Encrypt, Aes.Cipher, Aes.Flat;
    Aes.AesIteration(block, out, keys, total);
    CopyInto(out[..], cipher, 16 * i);
  }

  /** aes_cbc: every whole block is enciphered and the bytes after the last one
      keep what they held, also when both buffers are the same. */
  method AesCbcInto(plain: array<bv8>, length: nat, keys: seq<bv8>, total: nat, iv: Aes.Block, cipher: array<bv8>)
    requires GoodKeys(keys, total)
    requires length <= plain.Length && 16 * (length / 16) <= cipher.Length
    modifies cipher
    ensures Blocks(cipher[..], length / 16) == AesCbc(keys, total, iv, Blocks(old(plain[..]), length / 16))
    ensures cipher[16 * (length / 16)..] == old(cipher[16 * (length / 16)..])
  {
    hide Cbc.Encrypt, Aes.Encrypt, Xor, BlockAt;
    var n := length / 16;
    ghost var blocks := Blocks(plain[..], n);
    ghost var all := AesCbc(keys, total, iv, blocks);
    var buffer := iv;
    var out := new bv8[16];
    for i := 0 to n
      invariant buffer == if i == 0 then iv else all[i - 1]
      invariant forall k :: 0 <= k < i ==> BlockAt(cipher[..], k) == all[k]
      invariant plain[16 * i..] == old(plain[16 * i..])
      invariant cipher[16 * n..] == old(cipher[16 * n..])
    {
      ghost var before := cipher[..];
      NextBlock(old(plain[..]), plain[..], i);
      Cbc.EncryptAt(AesCipher(keys, total), AddBlocks(), iv, blocks, i);
      buffer := Xor(buffer, BlockAt(plain[..], i));
      CipherBlock(buffer, out, keys, total, cipher, i);
      BlockWritten(before, Aes.Encrypt(buffer, keys, total), cipher[..], i, n);
      buffer := BlockAt(cipher[..], i);
    }
  }

  // ----- SM4

  function Sm4Cipher(t: Sm4.Word -> Sm4.Word, keys: seq<Sm4.Word>): Sm4.Quad -> Sm4.Quad {
    q => Sm4.Encrypt(t, keys, q)
  }

  function AddQuads(): (Sm4.Quad, Sm4.Quad) -> Sm4.Quad {
    (p, q) => Sm4.Masked(p, q)
  }

  lemma MaskedCancels(p: Sm4.Quad, q: Sm4.Quad)
    ensures Sm4.Masked(Sm4.Masked(p, q), p) == q
  {
    hide Sm4.Plus;
    PlusCancels(p.a, q.a);
    PlusCancels(p.b, q.b);
    PlusCancels(p.c, q.c);
    PlusCancels(p.d, q.d);
  }

  lemma PlusCancels(x: Sm4.Word, y: Sm4.Word)
    ensures Sm4.Plus(Sm4.Plus(x, y), x) == y
  {}

  /** The first n four-word blocks. */
  function Quads(s: seq<Sm4.Word>, n: nat): (q: seq<Sm4.Quad>)
    requires 4 * n <= |s|
    ensures |q| == n
  {
    seq(n, i requires 0 <= i < n => Sm4.Window(s, 4 * i))
  }

  function Sm4Cbc(t: Sm4.Word -> Sm4.Word, keys: seq<Sm4.Word>, iv: Sm4.Quad, plain: seq<Sm4.Quad>): (cipher: seq<Sm4.Quad>)
    ensures |cipher| == |plain|
  {
    Cbc.Encrypt(Sm4Cipher(t, keys), AddQuads(), iv, plain)
  }

  /** Decryption is chaining with the same block function and the round keys
      reversed. */
  lemma Sm4CbcRoundTrip(t: Sm4.Word -> Sm4.Word, keys: seq<Sm4.Word>, iv: Sm4.Quad, plain: seq<Sm4.Quad>)
    ensures Cbc.Decrypt(Sm4Cipher(t, Reverse(keys)), AddQuads(), iv, Sm4Cbc(t, keys, iv, plain)) == plain
  {
    hide Sm4.Encrypt, Sm4.Masked, Cbc.Encrypt, Cbc.Decrypt, Reverse;
    forall q: Sm4.Quad ensures Sm4Cipher(t, Reverse(keys))(Sm4Cipher(t, keys)(q)) == q {
      Sm4.ReversedKeysDecrypt(t, keys, q);
    }
    forall p: Sm4.Quad, q: Sm4.Quad ensures AddQuads()(AddQuads()(p, q), p) == q {
      MaskedCancels(p, q);
    }
    Cbc.RoundTrip(Sm4Cipher(t, keys), Sm4Cipher(t, Reverse(keys)), AddQuads(), iv, plain);
  }

  lemma QuadWritten(before: seq<Sm4.Word>, after: seq<Sm4.Word>, i: nat, n: nat)
    requires i < n && 4 * n <= |before| == |after|
    requires after[..4 * i] == before[..4 * i] && after[4 * i + 4..] == before[4 * i + 4..]
    ensures forall k :: 0 <= k < i ==> Sm4.Window(after, 4 * k) == Sm4.Window(before, 4 * k)
    ensures after[4 * n..] == before[4 * n..]
    ensures after[4 * (i + 1)..] == before[4 * (i + 1)..]
  {
    assert forall m :: 0 <= m < 4 * i ==> after[m] == after[..4 * i][m] == before[m];
    assert after[4 * n..] == after[4 * i + 4..][4 * (n - i - 1)..];
  }

  lemma NextQuad(was: seq<Sm4.Word>, now: seq<Sm4.Word>, i: nat)
    requires 4 * i + 4 <= |was| == |now| && was[4 * i..] == now[4 * i..]
    ensures Sm4.Window(was, 4 * i) == Sm4.Window(now, 4 * i) && was[4 * (i + 1)..] == now[4 * (i + 1)..]
  {
    assert forall j :: 0 <= j < 4 ==> was[4 * i + j] == was[4 * i..][j] == now[4 * i..][j] == now[4 * i + j];
    assert was[4 * (i + 1)..] == was[4 * i..][4..] && now[4 * (i + 1)..] == now[4 * i..][4..];
  }

  /** sm4_cbc, likewise over words. */
  method Sm4CbcInto(t: Sm4.Word -> Sm4.Word, plain: array<Sm4.Word>, n: nat, keys: seq<Sm4.Word>, iv: Sm4.Quad, cipher: array<Sm4.Word>)
    requires 4 * n <= plain.Length && 4 * n <= cipher.Length
    modifies cipher
    ensures Quads(cipher[..], n) == Sm4Cbc(t, keys, iv, Quads(old(plain[..]), n))
    ensures cipher[4 * n..] == old(cipher[4 * n..])
  {
    hide Cbc.Encrypt, Sm4.Encrypt, Sm4.Masked, Sm4.Window;
    ghost var blocks := Quads(plain[..], n);
    ghost var all := Sm4Cbc(t, keys, iv, blocks);
    var buffer := new Sm4.Word[4];
    SetQuad(buffer, iv);
    var out := new Sm4.Word[4];
    for i := 0 to n
      invariant Sm4.Window(buffer[..], 0) == if i == 0 then iv else all[i - 1]
      invariant forall k :: 0 <= k < i ==> Sm4.Window(cipher[..], 4 * k) == all[k]
      invariant plain[4 * i..] == old(plain[4 * i..])
      invariant cipher[4 * n..] == old(cipher[4 * n..])
    {
      ghost var before := cipher[..];
      NextQuad(old(plain[..]), plain[..], i);
      Cbc.EncryptAt(Sm4Cipher(t, keys), AddQuads(), iv, blocks, i);
      MaskInto(buffer, plain, 4 * i);
      Sm4.Iteration(t, keys, buffer, out);
      CopyQuad(out, cipher, 4 * i);
      QuadWritten(before, cipher[..], i, n);
      CopyQuad(out, buffer, 0);
    }
  }

  method SetQuad(buffer: array<Sm4.Word>, q: Sm4.Quad)
    requires buffer.Length == 4
    modifies buffer
    ensures Sm4.Window(buffer[..], 0) == q
  {
    buffer[0], buffer[1], buffer[2], buffer[3] := q.a, q.b, q.c, q.d;
  }

  method MaskInto(buffer: array<Sm4.Word>, plain: array<Sm4.Word>, at: nat)
    requires buffer.Length == 4 && at + 4 <= plain.Length && buffer != plain
    modifies buffer
    ensures Sm4.Window(buffer[..], 0) == Sm4.Masked(old(Sm4.Window(buffer[..], 0)), Sm4.Window(plain[..], at))
  {
    hide Sm4.Plus;
    for j := 0 to 4
      invariant forall k :: 0 <= k < j ==> buffer[k] == Sm4.Plus(old(buffer[k]), plain[at + k])
      invariant forall k :: j <= k < 4 ==> buffer[k] == old(buffer[k])
    {
      buffer[j] := Sm4.Plus(buffer[j], plain[at + j]);
    }
  }

  method CopyQuad(src: array<Sm4.Word>, dst: array<Sm4.Word>, at: nat)
    requires src.Length == 4 && at + 4 <= dst.Length && src != dst
    modifies dst
    ensures Sm4.Window(dst[..], at) == Sm4.Window(src[..], 0)
    ensures dst[..at] == old(dst[..at]) && dst[at + 4..] == old(dst[at + 4..])
  {
    for j := 0 to 4
      invariant forall k :: 0 <= k < j ==> dst[at + k] == src[k]
      invariant dst[..at] == old(dst[..at]) && dst[at + 4..] == old(dst[at + 4..])
      invariant unchanged(src)
    {
      dst[at + j] := src[j];
    }
  }
}
