/** Cipher block chaining over blocks of any type: e enciphers a block, d
    deciphers it, add is the exclusive or of two blocks. */
module Cbc {
  function Encrypt<B>(e: B -> B, add: (B, B) -> B, iv: B, plain: seq<B>): (cipher: seq<B>)
    ensures |cipher| == |plain|
    decreases |plain|
  {
    if plain == [] then [] else
      var c := e(add(iv, plain[0]));
      [c] + Encrypt(e, add, c, plain[1..])
  }

  function Decrypt<B>(d: B -> B, add: (B, B) -> B, iv: B, cipher: seq<B>): (plain: seq<B>)
    ensures |plain| == |cipher|
    decreases |cipher|
  {
    if cipher == [] then [] else
      [add(d(cipher[0]), iv)] + Decrypt(d, add, cipher[0], cipher[1..])
  }

  ghost predicate Inverts<B(!new)>(d: B -> B, e: B -> B) {
    forall b {:trigger e(b)} :: d(e(b)) == b
  }

  ghost predicate Cancels<B(!new)>(add: (B, B) -> B) {
    forall a, b {:trigger add(a, b)} :: add(add(a, b), a) == b
  }

  lemma {:induction false} RoundTrip<B(!new)>(e: B -> B, d: B -> B, add: (B, B) -> B, iv: B, plain: seq<B>)
    requires Inverts(d, e) && Cancels(add)
    ensures Decrypt(d, add, iv, Encrypt(e, add, iv, plain)) == plain
    decreases |plain|
  {
    if plain != [] {
      var c := e(add(iv, plain[0]));
      var rest := Encrypt(e, add, c, plain[1..]);
      assert ([c] + rest)[1..] == rest;
      RoundTrip(e, d, add, c, plain[1..]);
    }
  }

  /** Block i of the plain text needs two blocks of the cipher text. */
  lemma {:induction false} DecryptAt<B>(d: B -> B, add: (B, B) -> B, iv: B, cipher: seq<B>, i: nat)
    requires i < |cipher|
    ensures Decrypt(d, add, iv, cipher)[i] == add(d(cipher[i]), if i == 0 then iv else cipher[i - 1])
    decreases |cipher|
  {
    if i > 0 {
      DecryptAt(d, add, cipher[0], cipher[1..], i - 1);
    }
  }

  /** A damaged cipher block spoils at most itself and its successor. */
  lemma DamageIsLocal<B>(d: B -> B, add: (B, B) -> B, iv: B, good: seq<B>, bad: seq<B>, damaged: nat, i: nat)
    requires |good| == |bad| && i < |good|
    requires forall k :: 0 <= k < |good| && k != damaged ==> good[k] == bad[k]
    requires i != damaged && i != damaged + 1
    ensures Decrypt(d, add, iv, good)[i] == Decrypt(d, add, iv, bad)[i]
  {
    DecryptAt(d, add, iv, good, i);
    DecryptAt(d, add, iv, bad, i);
  }

  /** Two messages under one IV have the same first k cipher blocks exactly when
      they have the same first k plain blocks. */
  lemma {:induction false} SharedPrefix<B(!new)>(e: B -> B, d: B -> B, add: (B, B) -> B, iv: B, p: seq<B>, q: seq<B>, k: nat)
    requires Inverts(d, e) && Cancels(add)
    requires k <= |p| && k <= |q|
    ensures Encrypt(e, add, iv, p)[..k] == Encrypt(e, add, iv, q)[..k] <==> p[..k] == q[..k]
    decreases k
  {
    if k > 0 {
      var cp, cq := Encrypt(e, add, iv, p), Encrypt(e, add, iv, q);
      SameHead(e, d, add, iv, p[0], q[0]);
      HeadAndTail(p, q, k);
      HeadAndTail(cp, cq, k);
      if p[0] == q[0] {
        SharedPrefix(e, d, add, cp[0], p[1..], q[1..], k - 1);
        assert cp[1..] == Encrypt(e, add, cp[0], p[1..]) && cq[1..] == Encrypt(e, add, cp[0], q[1..]);
      }
    }
  }

  lemma SameHead<B(!new)>(e: B -> B, d: B -> B, add: (B, B) -> B, iv: B, x: B, y: B)
    requires Inverts(d, e) && Cancels(add)
    ensures e(add(iv, x)) == e(add(iv, y)) <==> x == y
  {
    assert d(e(add(iv, x))) == add(iv, x) && d(e(add(iv, y))) == add(iv, y);
    assert add(add(iv, x), iv) == x && add(add(iv, y), iv) == y;
  }

  lemma HeadAndTail<B>(p: seq<B>, q: seq<B>, k: nat)
    requires 0 < k <= |p| && k <= |q|
    ensures p[..k] == q[..k] <==> p[0] == q[0] && p[1..][..k - 1] == q[1..][..k - 1]
  {
    assert p[..k] == [p[0]] + p[1..][..k - 1] && q[..k] == [q[0]] + q[1..][..k - 1];
  }

  /** What is left to encipher after i blocks. */
  lemma {:induction false} EncryptFrom<B>(e: B -> B, add: (B, B) -> B, iv: B, plain: seq<B>, i: nat)
    requires i <= |plain|
    ensures var all := Encrypt(e, add, iv, plain);
      all[i..] == Encrypt(e, add, if i == 0 then iv else all[i - 1], plain[i..])
    decreases i
  {
    if i == 0 {
      assert plain[0..] == plain;
    } else {
      EncryptFrom(e, add, iv, plain, i - 1);
      var all := Encrypt(e, add, iv, plain);
      assert all[i - 1..][1..] == all[i..] && plain[i - 1..][1..] == plain[i..];
    }
  }

  lemma EncryptAt<B>(e: B -> B, add: (B, B) -> B, iv: B, plain: seq<B>, i: nat)
    requires i < |plain|
    ensures var all := Encrypt(e, add, iv, plain);
      all[i] == e(add(if i == 0 then iv else all[i - 1], plain[i]))
  {
    EncryptFrom(e, add, iv, plain, i);
    var all := Encrypt(e, add, iv, plain);
    assert all[i..][0] == all[i] && plain[i..][0] == plain[i];
  }
}
