/** Decimal numbers, splitting and joining, as the Python scripts use them. */
module Text {
  import opened Wrappers

  // ----- decimal numbers

  predicate IsDigit(c: char) {
    '0' <= c <= '9'
  }

  predicate AllDigits(s: string) {
    forall i :: 0 <= i < |s| ==> IsDigit(s[i])
  }

  function DigitOf(c: char): (d: nat)
    requires IsDigit(c)
    ensures d < 10
  {
    c as int - '0' as int
  }

  function CharOf(d: nat): (c: char)
    requires d < 10
    ensures IsDigit(c) && DigitOf(c) == d
  {
    (d + '0' as int) as char
  }

  /** "%d" of a natural number. */
  function Decimal(n: nat): (s: string)
    ensures |s| >= 1 && AllDigits(s)
  {
    if n < 10 then [CharOf(n)] else Decimal(n / 10) + [CharOf(n % 10)]
  }

  function Value(s: string): nat
    requires AllDigits(s)
  {
    if s == [] then 0 else 10 * Value(s[..|s| - 1]) + DigitOf(s[|s| - 1])
  }

  lemma {:induction false} ValueOfDecimal(n: nat)
    ensures Value(Decimal(n)) == n
  {
    hide DigitOf, CharOf, IsDigit;
    var s := Decimal(n);
    if n >= 10 {
      ValueOfDecimal(n / 10);
      assert s[..|s| - 1] == Decimal(n / 10);
    } else {
      assert s[..0] == [];
    }
  }

  /** A shorter prefix of a number's digits is a smaller number. */
  lemma {:induction false} PrefixIsSmaller(n: nat, k: nat)
    requires 0 < k <= |Decimal(n)|
    ensures Value(Decimal(n)[..k]) <= n
    ensures k < |Decimal(n)| ==> Value(Decimal(n)[..k]) < n
  {
    hide DigitOf, CharOf, IsDigit;
    var s := Decimal(n);
    if k == |s| {
      assert s[..k] == s;
      ValueOfDecimal(n);
    } else {
      assert n >= 10;
      assert s[..k] == Decimal(n / 10)[..k];
      PrefixIsSmaller(n / 10, k);
    }
  }

  lemma DecimalLength4(n: nat)
    ensures |Decimal(n)| == 4 <==> 1000 <= n < 10000
    ensures |Decimal(n)| > 4 <==> n >= 10000
  {
    assert |Decimal(n)| > 1 <==> n >= 10;
    assert |Decimal(n / 10)| > 1 <==> n / 10 >= 10;
    assert |Decimal(n / 10 / 10)| > 1 <==> n / 10 / 10 >= 10;
    assert |Decimal(n / 10 / 10 / 10)| > 1 <==> n / 10 / 10 / 10 >= 10;
  }

  /** "%d" of any integer. */
  function Signed(n: int): (s: string)
    ensures |s| >= 1
  {
    if n < 0 then "-" + Decimal(-n) else Decimal(n)
  }

  /** int(s): an optional sign and at least one digit. */
  function ParseInt(s: string): Option<int> {
    if s == [] then None
    else if AllDigits(s) then Some(Value(s))
    else if |s| > 1 && AllDigits(s[1..]) && s[0] == '-' then Some(-(Value(s[1..]) as int))
    else if |s| > 1 && AllDigits(s[1..]) && s[0] == '+' then Some(Value(s[1..]))
    else None
  }

  lemma ParseDecimal(n: nat)
    ensures ParseInt(Decimal(n)) == Some(n)
  {
    ValueOfDecimal(n);
  }

  lemma ParseSigned(n: int)
    ensures ParseInt(Signed(n)) == Some(n)
  {
    hide Decimal, Value;
    if n < 0 {
      ValueOfDecimal(-n);
      var s := Signed(n);
      assert s[1..] == Decimal(-n) && !IsDigit(s[0]);
    } else {
      ValueOfDecimal(n);
    }
  }

  /** What int accepts: digits, or a sign and digits, and nothing else. */
  lemma ParseIntForms(s: string)
    ensures s != [] && AllDigits(s) ==> ParseInt(s) == Some(Value(s)) && ParseInt("+" + s) == Some(Value(s))
    ensures s != [] && AllDigits(s) ==> ParseInt("-" + s) == Some(-(Value(s) as int))
    ensures ParseInt(s).Some? ==> s != [] && (AllDigits(s) || (|s| >= 2 && s[0] in "+-" && AllDigits(s[1..])))
  {
    hide Value;
    assert ("+" + s)[1..] == s && ("-" + s)[1..] == s;
    assert !IsDigit(("+" + s)[0]) && !IsDigit(("-" + s)[0]);
  }

  // ----- splitting and joining

  predicate Lacks(s: string, c: char) {
    forall i :: 0 <= i < |s| ==> s[i] != c
  }

  /** s.split(c). */
  function Split(s: string, c: char): (parts: seq<string>)
    ensures |parts| >= 1
  {
    if s == [] then [[]]
    else if s[0] == c then [[]] + Split(s[1..], c)
    else var rest := Split(s[1..], c); [[s[0]] + rest[0]] + rest[1..]
  }

  /** c.join(parts). */
  function Join(parts: seq<string>, c: char): string {
    if parts == [] then [] else if |parts| == 1 then parts[0] else parts[0] + [c] + Join(parts[1..], c)
  }

  lemma {:induction false} SplitFirst(part: string, c: char, rest: string)
    requires Lacks(part, c)
    ensures Split(part + [c] + rest, c) == [part] + Split(rest, c)
    ensures Split(part, c) == [part]
  {
    var s := part + [c] + rest;
    if part == [] {
      assert s[1..] == rest;
    } else {
      assert s[1..] == part[1..] + [c] + rest;
      SplitFirst(part[1..], c, rest);
      assert part == [part[0]] + part[1..];
    }
  }

  lemma {:induction false} SplitOfJoin(parts: seq<string>, c: char)
    requires parts != [] && forall i :: 0 <= i < |parts| ==> Lacks(parts[i], c)
    ensures Split(Join(parts, c), c) == parts
  {
    hide Lacks, Split;
    if |parts| == 1 {
      SplitFirst(parts[0], c, []);
    } else {
      SplitFirst(parts[0], c, Join(parts[1..], c));
      SplitOfJoin(parts[1..], c);
      assert parts == [parts[0]] + parts[1..];
    }
  }

  // ----- white space

  predicate IsSpace(c: char) {
    c == ' ' || c == '\t' || c == '\n' || c == '\r' || c == '\U{000b}' || c == '\U{000c}'
  }

  function LeftStrip(s: string): (r: string)
    ensures |r| <= |s|
  {
    if s != [] && IsSpace(s[0]) then LeftStrip(s[1..]) else s
  }

  function RightStrip(s: string): (r: string)
    ensures |r| <= |s|
  {
    if s != [] && IsSpace(s[|s| - 1]) then RightStrip(s[..|s| - 1]) else s
  }

  function Strip(s: string): string {
    RightStrip(LeftStrip(s))
  }

  /** Text of blanks, tabs, line ends and page breaks only. */
  predicate Blank(s: string) {
    forall i :: 0 <= i < |s| ==> s[i] in " \t\n\r\U{000b}\U{000c}"
  }

  lemma {:induction false} LeftStripBlank(a: string, s: string)
    requires Blank(a)
    ensures LeftStrip(a + s) == LeftStrip(s)
  {
    if a == [] {
      assert a + s == s;
    } else {
      assert (a + s)[1..] == a[1..] + s;
      LeftStripBlank(a[1..], s);
    }
  }

  lemma {:induction false} RightStripBlank(s: string, b: string)
    requires Blank(b)
    ensures RightStrip(s + b) == RightStrip(s)
    decreases |b|
  {
    if b == [] {
      assert s + b == s;
    } else {
      var n := |b| - 1;
      assert (s + b)[..|s| + n] == s + b[..n];
      RightStripBlank(s, b[..n]);
    }
  }

  /** Blanks on the right survive the left strip unless everything is blank. */
  lemma {:induction false} LeftStripThenBlank(s: string, b: string)
    requires Blank(b)
    ensures RightStrip(LeftStrip(s + b)) == RightStrip(LeftStrip(s))
    decreases |s|
  {
    if s == [] {
      assert s + b == b + [] == b;
      LeftStripBlank(b, []);
    } else if IsSpace(s[0]) {
      assert (s + b)[1..] == s[1..] + b;
      LeftStripThenBlank(s[1..], b);
    } else {
      RightStripBlank(s, b);
    }
  }

  /** strip takes away blanks on both sides, however many, and leaves alone text that
      has none there. */
  lemma StripIgnoresBlanks(a: string, s: string, b: string)
    requires Blank(a) && Blank(b)
    ensures Strip(a + s + b) == Strip(s)
    ensures s != [] && !Blank([s[0]]) && !Blank([s[|s| - 1]]) ==> Strip(s) == s
  {
    assert a + s + b == a + (s + b);
    LeftStripBlank(a, s + b);
    LeftStripThenBlank(s, b);
    if s != [] && !Blank([s[0]]) && !Blank([s[|s| - 1]]) {
      NotBlank(s[0]);
      NotBlank(s[|s| - 1]);
    }
  }

  lemma NotBlank(c: char)
    requires !Blank([c])
    ensures !IsSpace(c)
  {}
}
