/** The length-prefixed message files of util/protolib.py.  A byte is its value;
    the bits a varint collects are disjoint, so they are added where the program
    ors them. */
module Varint {
  import opened Wrappers
  import opened Arith

  type Byte = n: nat | n < 256

  const TWO_32: nat := 0x1_0000_0000
  const TWO_63: nat := 0x8000_0000_0000_0000

  /** A varint read from the front of a file: its value and what follows it, the
      end of the file inside it, or more bytes than 64 bits need. */
  datatype Read = Number(value: int, rest: seq<Byte>) | EndOfFile | TooLong

  // ----- one varint

  function Pow128(k: nat): (p: nat)
    ensures p >= 1
  {
    if k == 0 then 1 else 128 * Pow128(k - 1)
  }

  function Encode(value: nat): (s: seq<Byte>)
    ensures |s| >= 1
  {
    if value < 128 then [value] else [128 + value % 128] + Encode(value / 128)
  }

  /** The 32-bit reading of the collected bits: the low 32 bits, made negative when
      bit 63 or a higher one is set. */
  function Masked(result: nat): int {
    if result >= TWO_63 then result % TWO_32 - TWO_32 else result % TWO_32
  }

  /** It is the one number congruent to the collected bits that has the sign of bit 63,
      in 32 bits. */
  lemma MaskedIs(result: nat)
    ensures (Masked(result) - result) % 0x1_0000_0000 == 0
    ensures -0x1_0000_0000 <= Masked(result) < 0x1_0000_0000
    ensures Masked(result) < 0 <==> result >= 0x8000_0000_0000_0000
  {
    assert result == TWO_32 * (result / TWO_32) + result % TWO_32;
    var d := Masked(result) - result;
    var q := if result >= TWO_63 then -(result / TWO_32) - 1 else -(result / TWO_32);
    DivModUnique(d, TWO_32, q, 0);
  }

  /** Byte i of an encoding holds the next seven bits, lowest first, and all but the
      last are marked. */
  lemma {:induction false} EncodeAt(value: nat, i: nat)
    requires i < |Encode(value)|
    ensures Encode(value)[i] == value / Pow128(i) % 128 + if i < |Encode(value)| - 1 then 128 else 0
    decreases value
  {
    hide Pow128;
    PowZero();
    if value >= 128 && i > 0 {
      EncodeAt(value / 128, i - 1);
      PowStep(value, i - 1);
    }
  }

  /** There are as many bytes as the value needs. */
  lemma {:induction false} EncodeLength(value: nat)
    ensures var n := |Encode(value)|; value / Pow128(n) == 0 && (n > 1 ==> value / Pow128(n - 1) > 0)
    decreases value
  {
    hide Pow128;
    PowZero();
    PowStep(value, 0);
    if value >= 128 {
      var n := |Encode(value / 128)|;
      EncodeLength(value / 128);
      PowStep(value, n);
      PowStep(value, n - 1);
    }
  }

  lemma PowZero()
    ensures Pow128(0) == 1
  {}

  lemma PowStep(value: nat, k: nat)
    ensures value / Pow128(k + 1) == value / 128 / Pow128(k)
  {
    DivSplit(value, 128, Pow128(k));
  }

  /** The bits that byte i of a varint contributes. */
  function Part(b: nat, i: nat): nat {
    b % 128 * Pow128(i)
  }

  /** Decoding goes on at byte i with acc collected so far. */
  function DecodeFrom(s: seq<Byte>, i: nat, acc: nat): Read
    decreases |s|
  {
    if s == [] then EndOfFile else
      var result := acc + Part(s[0], i);
      if s[0] < 128 then Number(Masked(result), s[1..])
      else if 7 * (i + 1) >= 64 then TooLong
      else DecodeFrom(s[1..], i + 1, result)
  }

  function Decode(s: seq<Byte>): Read {
    DecodeFrom(s, 0, 0)
  }

  lemma EncodeLong(value: nat, rest: seq<Byte>)
    requires value >= 128
    ensures var s := Encode(value) + rest;
      s[0] >= 128 && s[0] % 128 == value % 128 && s[1..] == Encode(value / 128) + rest
  {
    assert (128 + value % 128) % 128 == value % 128;
  }

  lemma {:induction false} DecodeFromEncode(value: nat, i: nat, acc: nat, rest: seq<Byte>)
    requires i < 10
    ensures DecodeFrom(Encode(value) + rest, i, acc)
         == if value < Pow128(10 - i) then Number(Masked(acc + value * Pow128(i)), rest) else TooLong
    decreases 10 - i
  {
    hide Masked, Pow128, Encode, Part;
    var s := Encode(value) + rest;
    if value < 128 {
      EncodeShort(value, i, rest);
      SmallFits(value, 10 - i);
    } else {
      EncodeLong(value, rest);
      SamePart(s[0], value, i);
      DivideBound(value, i);
      if i < 9 {
        DecodeFromEncode(value / 128, i + 1, acc + Part(value, i), rest);
        Recombine(value, i);
      }
    }
  }

  lemma EncodeShort(value: nat, i: nat, rest: seq<Byte>)
    requires value < 128
    ensures var s := Encode(value) + rest;
      s[0] == value && s[1..] == rest && Part(value, i) == value * Pow128(i)
  {}

  lemma SamePart(b: nat, value: nat, i: nat)
    requires b % 128 == value % 128
    ensures Part(b, i) == Part(value, i)
  {}

  lemma SmallFits(value: nat, k: nat)
    requires value < 128 && k >= 1
    ensures value < Pow128(k)
  {
    MulAtLeast(128, Pow128(k - 1));
  }

  lemma DivideBound(value: nat, i: nat)
    requires i < 10
    ensures value / 128 < Pow128(9 - i) <==> value < Pow128(10 - i)
    ensures i == 9 && value >= 128 ==> value >= Pow128(10 - i)
  {
    assert Pow128(10 - i) == 128 * Pow128(9 - i);
    assert Pow128(0) == 1;
  }

  lemma Recombine(value: nat, i: nat)
    ensures Part(value, i) + value / 128 * Pow128(i + 1) == value * Pow128(i)
  {
    var q, r, p := value / 128, value % 128, Pow128(i);
    assert value == 128 * q + r && Pow128(i + 1) == 128 * p;
    assert q * (128 * p) == (128 * q) * p;
    assert r * p + (128 * q) * p == (128 * q + r) * p;
  }

  lemma Pow128Of10()
    ensures Pow128(10) == 0x40_0000_0000_0000_0000
  {
    assert Pow128(2) == 0x4000 && Pow128(4) == 0x1000_0000 && Pow128(6) == 0x400_0000_0000;
    assert Pow128(8) == 0x100_0000_0000_0000;
  }

  /** What decoding makes of any encoded length, whatever follows it. */
  lemma DecodeOfEncode(value: nat, rest: seq<Byte>)
    ensures Decode(Encode(value) + rest)
         == if value < 0x40_0000_0000_0000_0000 then Number(Masked(value), rest) else TooLong
  {
    hide Masked, DecodeFrom, Encode;
    DecodeFromEncode(value, 0, 0, rest);
    Pow128Of10();
  }

  /** The value comes back exactly when it has 32 bits. */
  lemma ExactIff32Bits(value: nat, rest: seq<Byte>)
    ensures Decode(Encode(value) + rest) == Number(value, rest) <==> value < TWO_32
  {
    DecodeOfEncode(value, rest);
  }

  lemma EncodeMore(value: nat)
    requires |Encode(value)| > 1
    ensures Encode(value)[0] >= 128 && Encode(value)[1..] == Encode(value / 128)
  {}

  /** A file that ends inside a varint is told from every complete one. */
  lemma {:induction false} TruncatedIsEndOfFile(value: nat, k: nat, i: nat, acc: nat)
    requires k < |Encode(value)| && i + k < 10
    ensures DecodeFrom(Encode(value)[..k], i, acc) == EndOfFile
    decreases k
  {
    hide Encode, Part;
    if k > 0 {
      EncodeMore(value);
      var s := Encode(value);
      assert s[..k][1..] == Encode(value / 128)[..k - 1];
      TruncatedIsEndOfFile(value / 128, k - 1, i + 1, acc + Part(s[0], i));
    }
  }

  // ----- files of messages

  type Message = seq<Byte>

  /** file.read(size): everything that is left when size is negative. */
  function Take(s: seq<Byte>, size: int): nat {
    if size < 0 || size > |s| then |s| else size
  }

  /** decodeMessage: the bytes handed to the parser and the rest of the file, or
      None for False. */
  function DecodeMessage(s: seq<Byte>): (r: Option<(Message, seq<Byte>)>)
    ensures r.Some? ==> |r.value.1| < |s|
  {
    DecodeConsumes(s, 0, 0);
    match Decode(s)
    case Number(size, rest) => if size == 0 then None else Some((rest[..Take(rest, size)], rest[Take(rest, size)..]))
    case EndOfFile => None
    case TooLong => None
  }

  /** A varint takes at least one byte and never more than ten. */
  lemma {:induction false} DecodeConsumes(s: seq<Byte>, i: nat, acc: nat)
    requires i < 10
    ensures DecodeFrom(s, i, acc).Number? ==>
      var rest := DecodeFrom(s, i, acc).rest; |s| - (10 - i) <= |rest| < |s| && rest == s[|s| - |rest|..]
    decreases |s|
  {
    hide Part;
    if s != [] && i < 9 {
      DecodeConsumes(s[1..], i + 1, acc + Part(s[0], i));
    }
  }

  function EncodeMessage(m: Message): (s: seq<Byte>) {
    Encode(|m|) + m
  }

  function EncodeAll(ms: seq<Message>): seq<Byte> {
    if ms == [] then [] else EncodeMessage(ms[0]) + EncodeAll(ms[1..])
  }

  /** The reading loop of the decoding scripts: until decodeMessage says False. */
  function DecodeAll(s: seq<Byte>): seq<Message>
    decreases |s|
  {
    match DecodeMessage(s)
    case None => []
    case Some(r) => [r.0] + DecodeAll(r.1)
  }

  /** One written message, read back with anything after it.  A Python sequence
      has fewer than 2^63 bytes. */
  lemma MessageReadBack(m: Message, rest: seq<Byte>)
    requires |m| < TWO_63
    ensures 0 < |m| < TWO_32 ==> DecodeMessage(EncodeMessage(m) + rest) == Some((m, rest))
    ensures |m| % TWO_32 == 0 ==> DecodeMessage(EncodeMessage(m) + rest) == None
    ensures |m| >= TWO_32 && |m| % TWO_32 != 0 ==>
      exists r :: DecodeMessage(EncodeMessage(m) + rest) == Some((m[..|m| % TWO_32], r))
  {
    hide Encode, Decode;
    assert EncodeMessage(m) + rest == Encode(|m|) + (m + rest);
    DecodeOfEncode(|m|, m + rest);
    var size := |m| % TWO_32;
    assert (m + rest)[..size] == m[..size];
    if size == |m| { assert (m + rest)[size..] == rest; }
    if size != 0 {
      assert DecodeMessage(EncodeMessage(m) + rest) == Some((m[..size], (m + rest)[size..]));
    }
  }

  /** A file of messages is read back exactly when none of them is empty or 2^32
      bytes and longer. */
  lemma {:induction false} FileRoundTripIff(ms: seq<Message>)
    requires forall i :: 0 <= i < |ms| ==> |ms[i]| < TWO_63
    ensures DecodeAll(EncodeAll(ms)) == ms <==> forall i :: 0 <= i < |ms| ==> 0 < |ms[i]| < TWO_32
    decreases |ms|
  {
    hide EncodeMessage, DecodeMessage;
    if ms == [] {
      NothingLeft();
    } else {
      var m, rest := ms[0], ms[1..];
      var s := EncodeAll(ms);
      MessageReadBack(m, EncodeAll(rest));
      if 0 < |m| < TWO_32 {
        FileRoundTripIff(rest);
        assert DecodeAll(s) == [m] + DecodeAll(EncodeAll(rest));
        Cons(m, DecodeAll(EncodeAll(rest)), ms);
        assert (forall i :: 0 <= i < |ms| ==> 0 < |ms[i]| < TWO_32) <==> (forall i :: 0 <= i < |rest| ==> 0 < |rest[i]| < TWO_32) by {
          assert forall i :: 0 <= i < |rest| ==> rest[i] == ms[i + 1];
          assert forall i :: 0 < i < |ms| ==> ms[i] == rest[i - 1];
        }
      } else if |m| % TWO_32 == 0 {
        assert DecodeAll(s) == [];
      } else {
        assert DecodeAll(s)[0] == m[..|m| % TWO_32];
      }
    }
  }

  lemma NothingLeft()
    ensures DecodeMessage([]) == None
  {}

  lemma Cons<T>(x: T, s: seq<T>, t: seq<T>)
    requires t != [] && t[0] == x
    ensures [x] + s == t <==> s == t[1..]
  {
    assert t == [x] + t[1..];
    if [x] + s == t { assert s == ([x] + s)[1..]; }
  }

  /** An empty message ends the file for the reader: the rest is lost. */
  lemma {:induction false} EmptyMessageEndsFile(before: seq<Message>, after: seq<Message>)
    requires forall i :: 0 <= i < |before| ==> 0 < |before[i]| < TWO_32
    ensures DecodeAll(EncodeAll(before + [[]] + after)) == before
    decreases |before|
  {
    hide EncodeMessage, DecodeMessage;
    var ms := before + [[]] + after;
    MessageReadBack(ms[0], EncodeAll(ms[1..]));
    if before != [] {
      assert ms[1..] == before[1..] + [[]] + after;
      EmptyMessageEndsFile(before[1..], after);
    }
  }

  // ----- the file objects

  /** A file open for reading or writing: what is still to be read, or what has
      been written. */
  class File {
    var data: seq<Byte>

    constructor (contents: seq<Byte>)
      ensures data == contents
    {
      data := contents;
    }

    method ReadBytes(size: int) returns (s: seq<Byte>)
      modifies this
      ensures s == old(data)[..Take(old(data), size)] && data == old(data)[Take(old(data), size)..]
    {
      var n := Take(data, size);
      s := data[..n];
      data := data[n..];
    }

    method Write(s: seq<Byte>)
      modifies this
      ensures data == old(data) + s
    {
      data := data + s;
    }
  }

  /** _EncodeVarint32. */
  method EncodeVarint32(file: File, number: nat)
    modifies file
    ensures file.data == old(file.data) + Encode(number)
  {
    var value := number;
    var bits := value % 128;
    value := value / 128;
    while value != 0
      invariant value >= 0 && 0 <= bits < 128
      invariant file.data + Encode(128 * value + bits) == old(file.data) + Encode(number)
      decreases value
    {
      ghost var v := 128 * value + bits;
      assert v / 128 == value && v % 128 == bits;
      assert file.data + Encode(v) == file.data + [128 + bits] + Encode(value);
      file.Write([128 + bits]);
      bits := value % 128;
      value := value / 128;
    }
    file.Write([bits]);
  }

  /** _DecodeVarint32; the exception is ok = false. */
  method DecodeVarint32(file: File) returns (ok: bool, result: int, pos: nat)
    modifies file
    ensures match old(Decode(file.data))
      case Number(value, rest) => ok && result == value && file.data == rest && pos == |old(file.data)| - |rest| <= 10
      case EndOfFile => ok && result == 0 && pos == 0 && file.data == []
      case TooLong => !ok
  {
    ghost var all := Decode(file.data);
    var acc: nat, shift := 0, 0;
    ghost var i := 0;
    pos := 0;
    while true
      invariant i <= 9 && shift == 7 * i && pos == i
      invariant DecodeFrom(file.data, i, acc) == all
      invariant |file.data| == |old(file.data)| - i
      decreases 10 - i
    {
      ghost var s := file.data;
      var c := file.ReadBytes(1);
      if |c| == 0 {
        return true, 0, 0;
      }
      var b := c[0];
      assert b == s[0] && file.data == s[1..];
      acc := acc + Part(b, shift / 7);
      pos := pos + 1;
      if b < 128 {
        return true, Masked(acc), pos;
      }
      shift := shift + 7;
      i := i + 1;
      if shift >= 64 {
        return false, 0, pos;
      }
    }
  }

  /** decodeMessage without the parser: False is None. */
  method ReadMessage(file: File) returns (r: Option<Message>)
    modifies file
    ensures match old(DecodeMessage(file.data))
      case None => r == None
      case Some(m) => r == Some(m.0) && file.data == m.1
  {
    var ok, size, pos := DecodeVarint32(file);
    if !ok || size == 0 {
      return None;
    }
    var buf := file.ReadBytes(size);
    r := Some(buf);
  }

  /** encodeMessage. */
  method WriteMessage(file: File, m: Message)
    modifies file
    ensures file.data == old(file.data) + EncodeMessage(m)
  {
    EncodeVarint32(file, |m|);
    file.Write(m);
    assert old(file.data) + Encode(|m|) + m == old(file.data) + (Encode(|m|) + m);
  }
}
