/** The SM4 block function of sm4_cbc.cc: a four-word recurrence over 32-bit
    words.  The transformation T of a round is a parameter. */
module Sm4 {
  import opened Sequences

  type Word = bv32

  datatype Quad = Quad(a: Word, b: Word, c: Word, d: Word) {
    function Mirror(): Quad {
      Quad(d, c, b, a)
    }
  }

  // ----- byte order

  function EndianConvert(x: Word): Word {
    ((x << 24) & 0xff000000) | ((x << 8) & 0x00ff0000) | ((x >> 8) & 0x0000ff00) | ((x >> 24) & 0x000000ff)
  }

  lemma EndianConvertTwice(x: Word)
    ensures EndianConvert(EndianConvert(x)) == x
  {}

  /** The four bytes are reversed. */
  lemma EndianConvertReverses(x: Word)
    ensures EndianConvert(x) & 0xff == (x >> 24) & 0xff && (EndianConvert(x) >> 8) & 0xff == (x >> 16) & 0xff
    ensures (EndianConvert(x) >> 16) & 0xff == (x >> 8) & 0xff && (EndianConvert(x) >> 24) & 0xff == x & 0xff
  {}

  function Convert(q: Quad): Quad {
    Quad(EndianConvert(q.a), EndianConvert(q.b), EndianConvert(q.c), EndianConvert(q.d))
  }

  // ----- the rounds

  function Plus(x: Word, y: Word): Word {
    x ^ y
  }

  function Input(b: Word, c: Word, d: Word, key: Word): Word {
    b ^ c ^ d ^ key
  }

  /** FFunction: the word that follows q. */
  function Feed(t: Word -> Word, q: Quad, key: Word): Word {
    Plus(q.a, t(Input(q.b, q.c, q.d, key)))
  }

  function Step(t: Word -> Word, q: Quad, key: Word): Quad {
    Quad(q.b, q.c, q.d, Feed(t, q, key))
  }

  function Run(t: Word -> Word, q: Quad, keys: seq<Word>): Quad
    decreases |keys|
  {
    if keys == [] then q else Run(t, Step(t, q, keys[0]), keys[1..])
  }

  lemma InputReorder(b: Word, c: Word, d: Word, key: Word)
    ensures Input(d, c, b, key) == Input(b, c, d, key)
  {}

  lemma PlusTwice(x: Word, y: Word)
    ensures Plus(Plus(x, y), y) == x
  {}

  /** A round on the mirrored words undoes it. */
  lemma StepBack(t: Word -> Word, q: Quad, key: Word)
    ensures Step(t, Step(t, q, key).Mirror(), key) == q.Mirror()
  {
    hide Plus, Input;
    InputReorder(q.b, q.c, q.d, key);
    PlusTwice(q.a, t(Input(q.b, q.c, q.d, key)));
  }

  lemma {:induction false} RunAppend(t: Word -> Word, q: Quad, keys: seq<Word>, key: Word)
    ensures Run(t, q, keys + [key]) == Step(t, Run(t, q, keys), key)
    decreases |keys|
  {
    hide Step;
    if keys == [] {
      assert keys + [key] == [key] && [key][1..] == [];
    } else {
      assert (keys + [key])[1..] == keys[1..] + [key];
      RunAppend(t, Step(t, q, keys[0]), keys[1..], key);
    }
  }

  lemma {:induction false} RunReverse(t: Word -> Word, q: Quad, keys: seq<Word>)
    ensures Run(t, Run(t, q, keys).Mirror(), Reverse(keys)) == q.Mirror()
    decreases |keys|
  {
    hide Step;
    if keys != [] {
      var next := Step(t, q, keys[0]);
      var last := Run(t, next, keys[1..]);
      RunReverse(t, next, keys[1..]);
      RunAppend(t, last.Mirror(), Reverse(keys[1..]), keys[0]);
      StepBack(t, q, keys[0]);
    }
  }

  // ----- the block function

  /** sm4Iteration: words converted, rounds, words mirrored and converted back. */
  function Encrypt(t: Word -> Word, keys: seq<Word>, block: Quad): Quad {
    Convert(Run(t, Convert(block), keys).Mirror())
  }

  /** With the round keys reversed the same function decrypts, whatever T and
      the number of rounds. */
  lemma ReversedKeysDecrypt(t: Word -> Word, keys: seq<Word>, block: Quad)
    ensures Encrypt(t, Reverse(keys), Encrypt(t, keys, block)) == block
  {
    hide EndianConvert, Run, Reverse;
    var end := Run(t, Convert(block), keys);
    ConvertTwice(end.Mirror());
    RunReverse(t, Convert(block), keys);
    ConvertTwice(block);
  }

  lemma ConvertTwice(q: Quad)
    ensures Convert(Convert(q)) == q
  {
    hide EndianConvert;
    EndianConvertTwice(q.a);
    EndianConvertTwice(q.b);
    EndianConvertTwice(q.c);
    EndianConvertTwice(q.d);
  }

  /** The words x[i .. i + 4] of the recurrence. */
  function Window(x: seq<Word>, i: nat): Quad
    requires i + 4 <= |x|
  {
    Quad(x[i], x[i + 1], x[i + 2], x[i + 3])
  }

  /** sm4Iteration over the array of all words of the recurrence. */
  method Iteration(t: Word -> Word, keys: seq<Word>, plain: array<Word>, cipher: array<Word>)
    requires plain.Length == 4 && cipher.Length == 4
    modifies cipher
    ensures Window(cipher[..], 0) == Encrypt(t, keys, Window(old(plain[..]), 0))
  {
    hide EndianConvert, Feed;
    var n := |keys|;
    var x := new Word[n + 4];
    x[0] := EndianConvert(plain[0]);
    x[1] := EndianConvert(plain[1]);
    x[2] := EndianConvert(plain[2]);
    x[3] := EndianConvert(plain[3]);
    ghost var start := Convert(Window(plain[..], 0));
    for i := 0 to n
      invariant Run(t, Window(x[..], i), keys[i..]) == Run(t, start, keys)
      invariant unchanged(plain)
    {
      assert keys[i..][1..] == keys[i + 1..];
      x[i + 4] := Feed(t, Window(x[..], i), keys[i]);
    }
    assert keys[n..] == [];
    cipher[0] := EndianConvert(x[n + 3]);
    cipher[1] := EndianConvert(x[n + 2]);
    cipher[2] := EndianConvert(x[n + 1]);
    cipher[3] := EndianConvert(x[n]);
  }

  // ----- the key schedule

  /** keyExpansion is the same recurrence over the constants CK, each new word
      being a round key. */
  function RoundKeys(t: Word -> Word, q: Quad, ck: seq<Word>): (keys: seq<Word>)
    ensures |keys| == |ck|
    decreases |ck|
  {
    if ck == [] then [] else [Feed(t, q, ck[0])] + RoundKeys(t, Step(t, q, ck[0]), ck[1..])
  }

  /** The last four round keys are the words the recurrence ends with. */
  lemma {:induction false} LastFourKeys(t: Word -> Word, q: Quad, ck: seq<Word>)
    requires |ck| >= 4
    ensures Window(RoundKeys(t, q, ck), |ck| - 4) == Run(t, q, ck)
    decreases |ck|
  {
    hide Feed;
    var next := Step(t, q, ck[0]);
    var rest := RoundKeys(t, next, ck[1..]);
    if |ck| > 4 {
      LastFourKeys(t, next, ck[1..]);
      assert Window(RoundKeys(t, q, ck), |ck| - 4) == Window(rest, |ck| - 5);
    } else {
      var k0, k1, k2, k3 := ck[0], ck[1], ck[2], ck[3];
      assert ck[1..] == [k1, k2, k3] && ck[1..][1..] == [k2, k3];
      assert [k2, k3][1..] == [k3] && [k3][1..] == [];
      var q2 := Step(t, next, k1);
      var q3 := Step(t, q2, k2);
      assert RoundKeys(t, q2, [k2, k3]) == [Feed(t, q2, k2)] + RoundKeys(t, q3, [k3]);
      assert RoundKeys(t, q3, [k3]) == [Feed(t, q3, k3)];
      assert Run(t, q2, [k2, k3]) == Run(t, q3, [k3]) == Step(t, q3, k3);
    }
  }

  /** The last four round keys give the key words back: running the recurrence
      over the constants reversed undoes the schedule. */
  lemma ScheduleIsInvertible(t: Word -> Word, q: Quad, ck: seq<Word>)
    requires |ck| >= 4
    ensures Run(t, Window(RoundKeys(t, q, ck), |ck| - 4).Mirror(), Reverse(ck)).Mirror() == q
  {
    hide Run, Reverse, RoundKeys, Window;
    LastFourKeys(t, q, ck);
    RunReverse(t, q, ck);
  }

  lemma RoundKeysStep(t: Word -> Word, q: Quad, ck: seq<Word>, i: nat)
    requires i < |ck|
    ensures RoundKeys(t, q, ck[i..]) == [Feed(t, q, ck[i])] + RoundKeys(t, Step(t, q, ck[i]), ck[i + 1..])
  {
    hide Feed;
    assert ck[i..][1..] == ck[i + 1..];
  }

  // ----- the recurrence of the standard

  /** Exclusive or of four words. */
  function Sum(a: Word, b: Word, c: Word, d: Word): Word {
    Plus(Plus(Plus(a, b), c), d)
  }

  /** Word i + 4 is word i, changed by T of the three between and the round's key. */
  predicate Follows(t: Word -> Word, x: seq<Word>, i: nat, key: Word)
    requires i + 4 < |x|
  {
    x[i + 4] == Plus(x[i], t(Sum(key, x[i + 1], x[i + 2], x[i + 3])))
  }

  ghost predicate Recurs(t: Word -> Word, keys: seq<Word>, x: seq<Word>) {
    |x| == |keys| + 4 && forall i :: 0 <= i < |keys| ==> Follows(t, x, i, keys[i])
  }

  /** Words are added bit by bit: two equal ones cancel, in any order. */
  lemma PlusIsXor(x: Word, y: Word)
    ensures Plus(x, y) == x ^ y && Plus(x, y) == Plus(y, x) && Plus(x, x) == 0 && Plus(x, 0) == x
  {}

  lemma KeyAlone(key: Word)
    ensures Input(0, 0, 0, key) == key
  {}

  lemma FirstIntoKey(b: Word, c: Word, d: Word, key: Word)
    ensures Input(b, c, d, key) == Input(0, c, d, Plus(key, b))
  {}

  lemma SecondIntoKey(b: Word, c: Word, d: Word, key: Word)
    ensures Input(b, c, d, key) == Input(b, 0, d, Plus(key, c))
  {}

  lemma ThirdIntoKey(b: Word, c: Word, d: Word, key: Word)
    ensures Input(b, c, d, key) == Input(b, c, 0, Plus(key, d))
  {}

  /** So what T is given is the sum of the key and the three words. */
  lemma InputIsSum(b: Word, c: Word, d: Word, key: Word)
    ensures Input(b, c, d, key) == Sum(key, b, c, d)
  {
    hide Input, Plus;
    FirstIntoKey(b, c, d, key);
    SecondIntoKey(0, c, d, Plus(key, b));
    ThirdIntoKey(0, 0, d, Plus(Plus(key, b), c));
    KeyAlone(Sum(key, b, c, d));
  }

  /** A key alone goes straight to T, and any of the three words can be moved into the
      key. */
  lemma FeedMixesTheKey(t: Word -> Word, q: Quad, key: Word)
    ensures Feed(t, Quad(q.a, 0, 0, 0), key) == Plus(q.a, t(key))
    ensures Feed(t, q, key) == Feed(t, q.(b := 0), Plus(key, q.b))
    ensures Feed(t, q, key) == Feed(t, q.(c := 0), Plus(key, q.c))
    ensures Feed(t, q, key) == Feed(t, q.(d := 0), Plus(key, q.d))
  {
    hide Input, Plus;
    KeyAlone(key);
    FirstIntoKey(q.b, q.c, q.d, key);
    SecondIntoKey(q.b, q.c, q.d, key);
    ThirdIntoKey(q.b, q.c, q.d, key);
  }

  lemma {:induction false} RunRecurs(t: Word -> Word, keys: seq<Word>, x: seq<Word>, n: nat)
    requires Recurs(t, keys, x) && n <= |keys|
    ensures Run(t, Window(x, 0), keys[..n]) == Window(x, n)
    decreases n
  {
    hide Feed, Run, Follows;
    if n == 0 {
      RunNothing(t, Window(x, 0));
      assert keys[..0] == [];
    } else {
      RunRecurs(t, keys, x, n - 1);
      assert keys[..n] == keys[..n - 1] + [keys[n - 1]];
      RunAppend(t, Window(x, 0), keys[..n - 1], keys[n - 1]);
      FeedOfWindow(t, keys, x, n - 1);
    }
  }

  lemma RunNothing(t: Word -> Word, q: Quad)
    ensures Run(t, q, []) == q
  {}

  lemma FeedOfWindow(t: Word -> Word, keys: seq<Word>, x: seq<Word>, i: nat)
    requires Recurs(t, keys, x) && i < |keys|
    ensures Feed(t, Window(x, i), keys[i]) == x[i + 4]
  {
    hide Input, Plus, Sum;
    InputIsSum(x[i + 1], x[i + 2], x[i + 3], keys[i]);
  }

  /** The cipher is the recurrence: from the converted words of the block to the last
      four words, reversed and converted back. */
  lemma EncryptRecurs(t: Word -> Word, keys: seq<Word>, block: Quad, x: seq<Word>)
    requires Recurs(t, keys, x)
    requires x[0] == EndianConvert(block.a) && x[1] == EndianConvert(block.b)
    requires x[2] == EndianConvert(block.c) && x[3] == EndianConvert(block.d)
    ensures var n, e := |keys|, Encrypt(t, keys, block);
      && e.a == EndianConvert(x[n + 3]) && e.b == EndianConvert(x[n + 2])
      && e.c == EndianConvert(x[n + 1]) && e.d == EndianConvert(x[n])
  {
    hide EndianConvert, Run, Follows;
    RunRecurs(t, keys, x, |keys|);
    assert keys[..|keys|] == keys;
  }

  lemma {:induction false} KeysRecur(t: Word -> Word, ck: seq<Word>, k: seq<Word>, i: nat)
    requires Recurs(t, ck, k) && i <= |ck|
    ensures RoundKeys(t, Window(k, i), ck[i..]) == k[i + 4..]
    decreases |ck| - i
  {
    hide Feed, RoundKeys, Follows;
    if i == |ck| {
      assert ck[i..] == [] && k[i + 4..] == [];
      NoKeys(t, Window(k, i));
    } else {
      RoundKeysStep(t, Window(k, i), ck, i);
      FeedOfWindow(t, ck, k, i);
      KeysRecur(t, ck, k, i + 1);
      assert k[i + 4..] == [k[i + 4]] + k[i + 5..];
    }
  }

  lemma NoKeys(t: Word -> Word, q: Quad)
    ensures RoundKeys(t, q, []) == []
  {}

  /** The schedule is the recurrence over the constants, from the key words masked by
      the system parameter, and the round keys are all words after the first four. */
  lemma ScheduleRecurs(t: Word -> Word, mk: Quad, fk: Quad, ck: seq<Word>, k: seq<Word>)
    requires Recurs(t, ck, k)
    requires k[0] == Plus(mk.a, fk.a) && k[1] == Plus(mk.b, fk.b) && k[2] == Plus(mk.c, fk.c) && k[3] == Plus(mk.d, fk.d)
    ensures RoundKeys(t, Masked(mk, fk), ck) == k[4..]
  {
    hide RoundKeys, Plus, Follows;
    KeysRecur(t, ck, k, 0);
    assert ck[0..] == ck;
  }

  /** There is such a sequence for every start and every key. */
  lemma {:induction false} RecurrenceExists(t: Word -> Word, q: Quad, keys: seq<Word>) returns (x: seq<Word>)
    ensures Recurs(t, keys, x) && Window(x, 0) == q
    decreases |keys|
  {
    hide Plus, Sum;
    if keys == [] {
      x := [q.a, q.b, q.c, q.d];
    } else {
      var n := |keys| - 1;
      var y := RecurrenceExists(t, q, keys[..n]);
      x := y + [Plus(y[n], t(Sum(keys[n], y[n + 1], y[n + 2], y[n + 3])))];
      forall i | 0 <= i < |keys| ensures Follows(t, x, i, keys[i]) {
        assert i < n ==> Follows(t, y, i, keys[..n][i]);
      }
    }
  }

  function Masked(mk: Quad, fk: Quad): Quad {
    Quad(Plus(mk.a, fk.a), Plus(mk.b, fk.b), Plus(mk.c, fk.c), Plus(mk.d, fk.d))
  }

  /** keyExpansion over the array of all key words. */
  method KeyExpansion(t: Word -> Word, mk: Quad, fk: Quad, ck: seq<Word>, keys: array<Word>)
    requires keys.Length == |ck|
    modifies keys
    ensures keys[..] == RoundKeys(t, Masked(mk, fk), ck)
  {
    hide Feed, Plus, RoundKeys;
    var n := |ck|;
    var k := new Word[n + 4];
    k[0], k[1], k[2], k[3] := Plus(mk.a, fk.a), Plus(mk.b, fk.b), Plus(mk.c, fk.c), Plus(mk.d, fk.d);
    ghost var all := RoundKeys(t, Masked(mk, fk), ck);
    assert ck[0..] == ck;
    for i := 0 to n
      invariant all[i..] == RoundKeys(t, Window(k[..], i), ck[i..])
      invariant keys[..i] == all[..i]
    {
      RoundKeysStep(t, Window(k[..], i), ck, i);
      k[i + 4] := Feed(t, Window(k[..], i), ck[i]);
      keys[i] := k[i + 4];
      assert all[i..][0] == all[i] && all[i..][1..] == all[i + 1..];
    }
    assert keys[..n] == keys[..];
  }
}
