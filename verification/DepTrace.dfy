/** The text form of instruction dependency records: decode_inst_dep_trace.py
    prints a record as one line, encode_inst_dep_trace.py reads it back. */
module DepTrace {
  import opened Wrappers
  import opened Text

  // ----- records

  const INVALID := 0
  const LOAD := 1
  const STORE := 2
  const COMP := 3

  const U32: nat := 0x1_0000_0000
  const U64: nat := 0x1_0000_0000_0000_0000

  datatype Record = Record(
    seqNum: nat, pc: Option<nat>, weight: Option<nat>, kind: nat,
    pAddr: Option<nat>, size: Option<nat>, flags: Option<nat>,
    compDelay: nat, robDep: seq<nat>, regDep: seq<nat>)

  predicate FitsIn(n: Option<nat>, bound: nat) {
    n.Some? ==> n.value < bound
  }

  predicate AllBelow(ns: seq<nat>, bound: nat) {
    forall i :: 0 <= i < |ns| ==> ns[i] < bound
  }

  /** The widths of the message's fields. */
  predicate Fits(r: Record) {
    && r.seqNum < U64 && r.compDelay < U64 && FitsIn(r.pc, U64) && FitsIn(r.weight, U32)
    && FitsIn(r.pAddr, U64) && FitsIn(r.size, U32) && FitsIn(r.flags, U32)
    && AllBelow(r.robDep, U64) && AllBelow(r.regDep, U64)
  }

  function KindName(kind: nat): Option<string> {
    if kind == INVALID then Some("INVALID") else if kind == LOAD then Some("LOAD")
    else if kind == STORE then Some("STORE") else if kind == COMP then Some("COMP") else None
  }

  function KindNumber(name: string): Option<nat> {
    if name == "INVALID" then Some(INVALID) else if name == "LOAD" then Some(LOAD)
    else if name == "STORE" then Some(STORE) else if name == "COMP" then Some(COMP) else None
  }

  // ----- printing

  function OrElse(n: Option<nat>, default: nat): nat {
    if n.Some? then n.value else default
  }

  function IfPresent(n: Option<nat>): seq<string> {
    if n.Some? then [Decimal(n.value)] else []
  }

  function Fields(r: Record, name: string): (fs: seq<string>)
    ensures |fs| >= 5
  {
    [Decimal(r.seqNum), Decimal(OrElse(r.pc, 0)), Decimal(OrElse(r.weight, 1)), name]
    + IfPresent(r.pAddr) + IfPresent(r.size) + IfPresent(r.flags) + [Decimal(r.compDelay)]
  }

  /** Every dependency with a comma before it. */
  function Deps(ds: seq<nat>): string {
    if ds == [] then "" else "," + Decimal(ds[0]) + Deps(ds[1..])
  }

  /** A line without its end; None when the type has no name and the program
      stops. */
  function PrintLine(r: Record): Option<string> {
    match KindName(r.kind)
    case None => None
    case Some(name) => Some(Join(Fields(r, name), ',') + ":" + Deps(r.robDep) + ":" + Deps(r.regDep))
  }

  // ----- reading

  /** int(s) stored into an unsigned field. */
  function ParseField(s: string, bound: nat): Option<nat> {
    match ParseInt(Strip(s))
    case None => None
    case Some(n) => if 0 <= n < bound then Some(n) else None
  }

  function ParseDeps(parts: seq<string>): Option<seq<nat>> {
    if parts == [] then Some([])
    else if parts[0] == "" then ParseDeps(parts[1..])
    else
      match ParseField(parts[0], U64)
      case None => None
      case Some(d) =>
        match ParseDeps(parts[1..])
        case None => None
        case Some(ds) => Some([d] + ds)
  }

  datatype Tail = Tail(pAddr: Option<nat>, size: Option<nat>, flags: Option<nat>, compDelay: nat)

  /** The fields after the type. */
  function ParseTail(kind: nat, info: seq<string>): Option<Tail> {
    if kind == LOAD || kind == STORE then
      if |info| < 8 then None else
        var a, s, f, c := ParseField(info[4], U64), ParseField(info[5], U32), ParseField(info[6], U32), ParseField(info[7], U64);
        if a.None? || s.None? || f.None? || c.None? then None else Some(Tail(a, s, f, c.value))
    else if |info| < 5 || ParseField(info[4], U64).None? then None
    else Some(Tail(None, None, None, ParseField(info[4], U64).value))
  }

  function ParseInfo(info: seq<string>, rob: seq<nat>, reg: seq<nat>): Option<Record> {
    if |info| < 4 then None else
      var n, p, w := ParseField(info[0], U64), ParseField(info[1], U64), ParseField(info[2], U32);
      var kind := KindNumber(info[3]);
      if n.None? || p.None? || w.None? || kind.None? || kind.value == INVALID then None else
        match ParseTail(kind.value, info)
        case None => None
        case Some(t) => Some(Record(n.value, p, w, kind.value, t.pAddr, t.size, t.flags, t.compDelay, rob, reg))
  }

  /** One line of the text; None where the program stops with an error. */
  function ParseLine(line: string): Option<Record> {
    var parts := Split(Strip(line), ':');
    if |parts| != 3 then None else
      var rob, reg := ParseDeps(Split(Strip(parts[1]), ',')), ParseDeps(Split(parts[2], ','));
      if rob.None? || reg.None? then None else ParseInfo(Split(parts[0], ','), rob.value, reg.value)
  }

  /** Blanks around a line do not matter. */
  lemma LineIgnoresBlanks(a: string, line: string, b: string)
    requires Blank(a) && Blank(b)
    ensures ParseLine(a + line + b) == ParseLine(line)
  {
    hide Strip, Split, ParseDeps, ParseInfo;
    StripIgnoresBlanks(a, line, b);
  }

  // ----- pieces read back

  /** Text of digits and capital letters. */
  predicate Word(s: string) {
    s != [] && forall i :: 0 <= i < |s| ==> IsDigit(s[i]) || 'A' <= s[i] <= 'Z'
  }

  lemma WordProperties(s: string)
    requires Word(s)
    ensures Lacks(s, ',') && Lacks(s, ':') && Lacks(s, '\n') && Strip(s) == s
  {
    assert !IsSpace(s[0]) && !IsSpace(s[|s| - 1]);
  }

  lemma DecimalIsWord(n: nat)
    ensures Word(Decimal(n))
  {}

  lemma FieldReadBack(n: nat, bound: nat)
    ensures ParseField(Decimal(n), bound) == if n < bound then Some(n) else None
  {
    hide Decimal, ParseInt, Strip;
    DecimalIsWord(n);
    WordProperties(Decimal(n));
    ParseDecimal(n);
  }

  function Decimals(ds: seq<nat>): (ss: seq<string>)
    ensures |ss| == |ds|
  {
    seq(|ds|, i requires 0 <= i < |ds| => Decimal(ds[i]))
  }

  lemma {:induction false} DepsAreJoined(ds: seq<nat>)
    ensures Deps(ds) == Join([""] + Decimals(ds), ',')
  {
    hide Decimal;
    if ds != [] {
      DepsAreJoined(ds[1..]);
      var all := [""] + Decimals(ds);
      assert all[1..] == Decimals(ds);
      assert Decimals(ds) == [Decimal(ds[0])] + Decimals(ds[1..]);
      JoinHead(Decimal(ds[0]), Decimals(ds[1..]));
    }
  }

  lemma JoinHead(s: string, parts: seq<string>)
    ensures Join([""] + ([s] + parts), ',') == "," + s + Join([""] + parts, ',')
  {
    assert ([""] + ([s] + parts))[1..] == [s] + parts && ([s] + parts)[1..] == parts;
    if parts == [] {
      assert [""] + parts == [""];
    } else {
      assert ([""] + parts)[1..] == parts;
    }
  }

  lemma SplitDeps(ds: seq<nat>)
    ensures Split(Deps(ds), ',') == [""] + Decimals(ds)
  {
    hide Decimal, Split, Join, Lacks;
    DepsAreJoined(ds);
    var parts := [""] + Decimals(ds);
    forall i | 0 <= i < |parts| ensures Lacks(parts[i], ',') {
      if i == 0 {
        EmptyLacks(',');
      } else {
        DecimalIsWord(ds[i - 1]);
        WordProperties(Decimal(ds[i - 1]));
      }
    }
    SplitOfJoin(parts, ',');
  }

  lemma EmptyLacks(c: char)
    ensures Lacks("", c)
  {}

  lemma {:induction false} DecimalsReadBack(ds: seq<nat>)
    requires AllBelow(ds, U64)
    ensures ParseDeps(Decimals(ds)) == Some(ds)
  {
    hide Decimal, ParseField;
    if ds != [] {
      FieldReadBack(ds[0], U64);
      assert Decimals(ds)[1..] == Decimals(ds[1..]);
      DecimalsReadBack(ds[1..]);
      assert ds == [ds[0]] + ds[1..];
    }
  }

  lemma DepsReadBack(ds: seq<nat>)
    requires AllBelow(ds, U64)
    ensures ParseDeps(Split(Deps(ds), ',')) == Some(ds)
  {
    hide Decimals, Split, ParseField;
    SplitDeps(ds);
    assert ([""] + Decimals(ds))[1..] == Decimals(ds);
    DecimalsReadBack(ds);
  }

  // ----- the line taken apart

  lemma {:induction false} DepsText(ds: seq<nat>)
    ensures Lacks(Deps(ds), ':') && Lacks(Deps(ds), '\n') && Strip(Deps(ds)) == Deps(ds)
    ensures ds == [] ==> Deps(ds) == []
    ensures ds != [] ==> Deps(ds) != [] && IsDigit(Deps(ds)[|Deps(ds)| - 1])
  {
    hide Decimal;
    if ds != [] {
      var d := Decimal(ds[0]);
      DecimalIsWord(ds[0]);
      WordProperties(d);
      DepsText(ds[1..]);
      assert Deps(ds) == "," + d + Deps(ds[1..]);
      EndsWithDigit(d, Deps(ds[1..]), ds[1..] == []);
    }
  }

  lemma EndsWithDigit(d: string, rest: string, last: bool)
    requires AllDigits(d) && d != [] && (last ==> rest == []) && (!last ==> rest != [] && IsDigit(rest[|rest| - 1]))
    ensures var s := "," + d + rest; IsDigit(s[|s| - 1]) && Strip(s) == s
  {
    var s := "," + d + rest;
    assert s[|s| - 1] == if last then d[|d| - 1] else rest[|rest| - 1];
    assert !IsSpace(s[0]) && !IsSpace(s[|s| - 1]);
  }

  ghost predicate AllWords(fs: seq<string>) {
    forall i :: 0 <= i < |fs| ==> Word(fs[i])
  }

  lemma FieldsAreWords(r: Record, name: string)
    requires Word(name)
    ensures AllWords(Fields(r, name))
  {
    hide Decimal, Word;
    forall n: nat ensures Word(Decimal(n)) {
      DecimalIsWord(n);
    }
  }

  lemma {:induction false} JoinOfWords(fs: seq<string>)
    requires fs != [] && AllWords(fs)
    ensures var s := Join(fs, ',');
      && Lacks(s, ':') && Lacks(s, '\n') && s != [] && !IsSpace(s[0])
      && Split(s, ',') == fs
    decreases |fs|
  {
    hide Split;
    WordProperties(fs[0]);
    forall i | 0 <= i < |fs| ensures Lacks(fs[i], ',') {
      WordProperties(fs[i]);
    }
    SplitOfJoin(fs, ',');
    if |fs| > 1 {
      JoinOfWords(fs[1..]);
    }
  }

  lemma NamesAreWords(kind: nat)
    requires kind <= 3
    ensures KindName(kind).Some? && Word(KindName(kind).value) && KindNumber(KindName(kind).value) == Some(kind)
  {}

  /** A printed line splits into the fields and dependencies it was made of. */
  lemma LineTakenApart(r: Record)
    requires r.kind <= 3
    ensures var name := KindName(r.kind).value; var line := PrintLine(r).value;
      && Strip(line) == line && Lacks(line, '\n')
      && Split(line, ':') == [Join(Fields(r, name), ','), Deps(r.robDep), Deps(r.regDep)]
      && Split(Join(Fields(r, name), ','), ',') == Fields(r, name)
  {
    hide Fields, Deps, Join, Split, Word;
    NamesAreWords(r.kind);
    var name := KindName(r.kind).value;
    var a, b, c := Join(Fields(r, name), ','), Deps(r.robDep), Deps(r.regDep);
    FieldsAreWords(r, name);
    JoinOfWords(Fields(r, name));
    DepsText(r.robDep);
    DepsText(r.regDep);
    SplitInThree(a, b, c);
    LineStrips(a, b, c);
  }

  lemma SplitInThree(a: string, b: string, c: string)
    requires Lacks(a, ':') && Lacks(b, ':') && Lacks(c, ':')
    ensures Split(a + ":" + b + ":" + c, ':') == [a, b, c]
  {
    hide Split, Lacks;
    assert a + ":" + b + ":" + c == a + [':'] + (b + [':'] + c);
    SplitFirst(a, ':', b + [':'] + c);
    SplitFirst(b, ':', c);
    SplitFirst(c, ':', []);
  }

  lemma LineStrips(a: string, b: string, c: string)
    requires a != [] && !IsSpace(a[0]) && (c != [] ==> IsDigit(c[|c| - 1]))
    requires Lacks(a, '\n') && Lacks(b, '\n') && Lacks(c, '\n')
    ensures var s := a + ":" + b + ":" + c; Strip(s) == s && Lacks(s, '\n')
  {
    var s := a + ":" + b + ":" + c;
    assert s[0] == a[0] && s[|s| - 1] == if c == [] then ':' else c[|c| - 1];
    assert !IsSpace(s[|s| - 1]);
  }

  // ----- the round trip

  /** The record with the printed defaults filled in. */
  function Normal(r: Record): Record {
    r.(pc := Some(OrElse(r.pc, 0)), weight := Some(OrElse(r.weight, 1)))
  }

  /** Loads and stores carry an address, a size and flags; other records none of
      them. */
  predicate WellFormed(r: Record) {
    && 1 <= r.kind <= 3
    && (r.kind != COMP ==> r.pAddr.Some? && r.size.Some? && r.flags.Some?)
    && (r.kind == COMP ==> r.pAddr.None? && r.size.None? && r.flags.None?)
  }

  lemma InfoReadBack(r: Record)
    requires Fits(r) && r.kind <= 3
    ensures ParseInfo(Fields(r, KindName(r.kind).value), r.robDep, r.regDep) == Some(Normal(r)) <==> WellFormed(r)
  {
    hide Decimal, ParseField;
    NamesAreWords(r.kind);
    FieldReadBack(r.seqNum, U64);
    FieldReadBack(OrElse(r.pc, 0), U64);
    FieldReadBack(OrElse(r.weight, 1), U32);
    FieldReadBack(r.compDelay, U64);
    FieldReadBack(OrElse(r.pAddr, 0), U64);
    FieldReadBack(OrElse(r.size, 0), U32);
    FieldReadBack(OrElse(r.flags, 0), U32);
  }

  /** A record survives printing and reading exactly when it is well formed. */
  lemma LineRoundTripIff(r: Record)
    requires Fits(r)
    ensures PrintLine(r).Some? <==> r.kind <= 3
    ensures PrintLine(r).Some? && ParseLine(PrintLine(r).value) == Some(Normal(r)) <==> WellFormed(r)
  {
    hide Fields, Deps, Join, Split, ParseInfo, ParseDeps;
    if r.kind <= 3 {
      LineTakenApart(r);
      DepsText(r.robDep);
      DepsReadBack(r.robDep);
      DepsReadBack(r.regDep);
      InfoReadBack(r);
    }
  }

  // ----- whole traces

  function PrintTrace(rs: seq<Record>): Option<string> {
    if rs == [] then Some("") else
      var line, rest := PrintLine(rs[0]), PrintTrace(rs[1..]);
      if line.None? || rest.None? then None else Some(line.value + "\n" + rest.value)
  }

  /** The lines of a text file, without their ends. */
  function Lines(text: string): seq<string> {
    var parts := Split(text, '\n');
    if parts[|parts| - 1] == "" then parts[..|parts| - 1] else parts
  }

  function ParseLines(lines: seq<string>): Option<seq<Record>> {
    if lines == [] then Some([]) else
      var r, rest := ParseLine(lines[0]), ParseLines(lines[1..]);
      if r.None? || rest.None? then None else Some([r.value] + rest.value)
  }

  function AllNormal(rs: seq<Record>): (ns: seq<Record>)
    ensures |ns| == |rs|
  {
    seq(|rs|, i requires 0 <= i < |rs| => Normal(rs[i]))
  }

  ghost predicate AllFit(rs: seq<Record>) {
    forall i :: 0 <= i < |rs| ==> Fits(rs[i])
  }

  lemma LinesCons(line: string, text: string)
    requires Lacks(line, '\n')
    ensures Lines(line + "\n" + text) == [line] + Lines(text)
  {
    hide Split;
    assert line + "\n" + text == line + ['\n'] + text;
    SplitFirst(line, '\n', text);
    var parts := Split(text, '\n');
    assert ([line] + parts)[..|parts|] == [line] + parts[..|parts| - 1];
  }

  /** A trace is printed and read back, record for record, exactly when all its
      records are well formed. */
  lemma {:induction false} TraceRoundTripIff(rs: seq<Record>)
    requires AllFit(rs)
    ensures PrintTrace(rs).Some? && ParseLines(Lines(PrintTrace(rs).value)) == Some(AllNormal(rs))
       <==> forall i :: 0 <= i < |rs| ==> WellFormed(rs[i])
    decreases |rs|
  {
    hide Lines, PrintLine, ParseLine, WellFormed, Normal, Fits;
    if rs == [] {
      NoLines();
    } else {
      var r, rest := rs[0], rs[1..];
      LineRoundTripIff(r);
      TraceRoundTripIff(rest);
      assert AllNormal(rs) == [Normal(r)] + AllNormal(rest);
      assert (forall i :: 0 <= i < |rs| ==> WellFormed(rs[i])) <==> WellFormed(r) && (forall i :: 0 <= i < |rest| ==> WellFormed(rest[i])) by {
        assert forall i :: 0 <= i < |rest| ==> rest[i] == rs[i + 1];
        assert forall i :: 0 < i < |rs| ==> rs[i] == rest[i - 1];
      }
      if r.kind <= 3 && PrintTrace(rest).Some? {
        LineTakenApart(r);
        LinesCons(PrintLine(r).value, PrintTrace(rest).value);
        ConsOption(ParseLine(PrintLine(r).value), ParseLines(Lines(PrintTrace(rest).value)), Normal(r), AllNormal(rest));
        assert ParseLines(Lines(PrintTrace(rs).value))
            == Both(ParseLine(PrintLine(r).value), ParseLines(Lines(PrintTrace(rest).value)));
      }
    }
  }

  function Both(r: Option<Record>, rest: Option<seq<Record>>): Option<seq<Record>> {
    if r.None? || rest.None? then None else Some([r.value] + rest.value)
  }

  lemma ConsOption(r: Option<Record>, rest: Option<seq<Record>>, n: Record, ns: seq<Record>)
    ensures Both(r, rest) == Some([n] + ns) <==> r == Some(n) && rest == Some(ns)
  {
    if r.Some? && rest.Some? {
      var all := [r.value] + rest.value;
      assert all[0] == r.value && all[1..] == rest.value;
      assert ([n] + ns)[0] == n && ([n] + ns)[1..] == ns;
    }
  }

  lemma NoLines()
    ensures Lines("") == []
  {}

  // ----- the printing loop

  method PrintDeps(out: string, ds: seq<nat>) returns (r: string)
    ensures r == out + Deps(ds)
  {
    hide Decimal;
    r := out;
    for i := 0 to |ds|
      invariant r + Deps(ds[i..]) == out + Deps(ds)
    {
      assert ds[i..][1..] == ds[i + 1..];
      assert r + ("," + Decimal(ds[i]) + Deps(ds[i + 1..])) == r + "," + Decimal(ds[i]) + Deps(ds[i + 1..]);
      r := r + "," + Decimal(ds[i]);
    }
    assert ds[|ds|..] == [] && r + "" == r;
  }

  /** Writes a comma and a field; fs are the fields written before. */
  method WriteField(out: string, s: string, ghost fs: seq<string>) returns (r: string)
    requires fs != [] && out == Join(fs, ',')
    ensures r == Join(fs + [s], ',')
  {
    r := out + "," + s;
    JoinMore(fs, s);
  }

  method WriteOrDefault(out: string, n: Option<nat>, default: nat, ghost fs: seq<string>) returns (r: string)
    requires fs != [] && out == Join(fs, ',')
    ensures r == Join(fs + [Decimal(OrElse(n, default))], ',')
  {
    if n.Some? {
      r := WriteField(out, Decimal(n.value), fs);
    } else {
      r := WriteField(out, Decimal(default), fs);
    }
  }

  method WriteIfPresent(out: string, n: Option<nat>, ghost fs: seq<string>) returns (r: string)
    requires fs != [] && out == Join(fs, ',')
    ensures r == Join(fs + IfPresent(n), ',')
  {
    if n.Some? {
      r := WriteField(out, Decimal(n.value), fs);
    } else {
      assert fs + [] == fs;
      r := out;
    }
  }

  /** The writes of one record, in the program's order; ok is false when it stops at
      a type without a name, with three fields already written. */
  method PrintRecord(p: Record) returns (ok: bool, out: string)
    ensures ok <==> PrintLine(p).Some?
    ensures out == if ok then PrintLine(p).value else Join(Fields(p, "")[..3], ',')
  {
    hide Decimal, Deps, Join, IfPresent, OrElse;
    out := Decimal(p.seqNum);
    ghost var fs := [Decimal(p.seqNum)];
    JoinOne(fs[0]);
    out := WriteOrDefault(out, p.pc, 0, fs);
    fs := fs + [Decimal(OrElse(p.pc, 0))];
    out := WriteOrDefault(out, p.weight, 1, fs);
    fs := fs + [Decimal(OrElse(p.weight, 1))];
    var name := KindName(p.kind);
    if name.None? {
      assert Fields(p, "")[..3] == fs;
      return false, out;
    }
    out := WriteField(out, name.value, fs);
    fs := fs + [name.value];
    out := WriteIfPresent(out, p.pAddr, fs);
    fs := fs + IfPresent(p.pAddr);
    out := WriteIfPresent(out, p.size, fs);
    fs := fs + IfPresent(p.size);
    out := WriteIfPresent(out, p.flags, fs);
    fs := fs + IfPresent(p.flags);
    out := WriteField(out, Decimal(p.compDelay), fs);
    assert fs + [Decimal(p.compDelay)] == Fields(p, name.value);
    out := PrintDeps(out + ":", p.robDep);
    out := PrintDeps(out + ":", p.regDep);
    ok := true;
  }

  lemma JoinOne(s: string)
    ensures Join([s], ',') == s
  {}

  lemma {:induction false} JoinMore(fs: seq<string>, s: string)
    requires fs != []
    ensures Join(fs + [s], ',') == Join(fs, ',') + "," + s
  {
    if |fs| == 1 {
      assert (fs + [s])[1..] == [s];
    } else {
      assert (fs + [s])[1..] == fs[1..] + [s];
      JoinMore(fs[1..], s);
    }
  }
}
