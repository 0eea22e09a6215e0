/** The dates of util/find_copyrights.py: datestr prints a set of years as
    ascending ranges, process_dates reads such a list back. */
module YearRanges {
  import opened Wrappers
  import opened Text

  datatype Range = Range(first: int, second: int) {
    predicate Holds(x: int) {
      first <= x <= second
    }
  }

  // ----- ranges of a sorted list

  ghost predicate Ascending(dates: seq<int>) {
    forall i, j :: 0 <= i < j < |dates| ==> dates[i] < dates[j]
  }

  /** The ranges still to be added when first .. second is open. */
  function RangesFrom(first: int, second: int, dates: seq<int>): (rs: seq<Range>)
    ensures |rs| >= 1
    decreases |dates|
  {
    if dates == [] then [Range(first, second)]
    else if dates[0] == second + 1 then RangesFrom(first, dates[0], dates[1..])
    else [Range(first, second)] + RangesFrom(dates[0], dates[0], dates[1..])
  }

  function Ranges(dates: seq<int>): (rs: seq<Range>)
    requires dates != []
    ensures |rs| >= 1
  {
    RangesFrom(dates[0], dates[0], dates[1..])
  }

  ghost predicate Covers(rs: seq<Range>, x: int) {
    exists i :: 0 <= i < |rs| && rs[i].Holds(x)
  }

  /** Ascending ranges with a gap between neighbours: none can be longer. */
  ghost predicate Maximal(rs: seq<Range>) {
    && (forall i :: 0 <= i < |rs| ==> rs[i].first <= rs[i].second)
    && (forall i, j :: 0 <= i < j < |rs| ==> rs[i].second + 1 < rs[j].first)
  }

  lemma {:induction false} RangesFromCorrect(first: int, second: int, dates: seq<int>)
    requires first <= second && Ascending(dates) && (dates != [] ==> second < dates[0])
    ensures var rs := RangesFrom(first, second, dates);
      && Maximal(rs) && rs[0].first == first
      && (forall x :: Covers(rs, x) <==> first <= x <= second || x in dates)
    decreases |dates|
  {
    hide Covers;
    var rs := RangesFrom(first, second, dates);
    if dates == [] {
      CoversOne(first, second);
    } else {
      var d, rest := dates[0], dates[1..];
      assert forall x :: x in dates <==> x == d || x in rest;
      if d == second + 1 {
        RangesFromCorrect(first, d, rest);
      } else {
        RangesFromCorrect(d, d, rest);
        var tail := RangesFrom(d, d, rest);
        MaximalCons(Range(first, second), tail);
        CoversCons(Range(first, second), tail);
      }
    }
  }

  lemma CoversOne(first: int, second: int)
    ensures forall x :: Covers([Range(first, second)], x) <==> first <= x <= second
  {
    forall x ensures Covers([Range(first, second)], x) <==> first <= x <= second {
      if first <= x <= second { assert [Range(first, second)][0].Holds(x); }
    }
  }

  lemma CoversCons(r: Range, rs: seq<Range>)
    ensures forall x :: Covers([r] + rs, x) <==> r.Holds(x) || Covers(rs, x)
  {
    forall x ensures Covers([r] + rs, x) <==> r.Holds(x) || Covers(rs, x) {
      var all := [r] + rs;
      assert all[0] == r;
      if Covers(rs, x) {
        var i :| 0 <= i < |rs| && rs[i].Holds(x);
        assert all[i + 1] == rs[i];
      }
    }
  }

  lemma MaximalCons(r: Range, rs: seq<Range>)
    requires rs != [] && Maximal(rs) && r.first <= r.second && r.second + 1 < rs[0].first
    ensures Maximal([r] + rs)
  {
    forall j | 0 <= j < |rs| ensures r.second + 1 < rs[j].first {
      if j > 0 { assert rs[0].second + 1 < rs[j].first; }
    }
  }

  /** The ranges of a sorted list hold exactly its dates and are maximal. */
  lemma RangesCorrect(dates: seq<int>)
    requires dates != [] && Ascending(dates)
    ensures Maximal(Ranges(dates)) && forall x :: Covers(Ranges(dates), x) <==> x in dates
  {
    RangesFromCorrect(dates[0], dates[0], dates[1..]);
  }

  lemma CoversFirst(rs: seq<Range>)
    requires Maximal(rs) && rs != []
    ensures forall x :: rs[0].Holds(x) ==> Covers(rs, x)
    ensures !Covers(rs, rs[0].second + 1) && forall x :: x < rs[0].first ==> !Covers(rs, x)
  {
    forall i | 0 <= i < |rs| ensures !rs[i].Holds(rs[0].second + 1) && rs[i].first >= rs[0].first {
      if i > 0 { assert rs[0].second + 1 < rs[i].first; }
    }
  }

  lemma SameFirstRange(rs: seq<Range>, ts: seq<Range>)
    requires Maximal(rs) && Maximal(ts) && rs != [] && ts != []
    requires forall x :: Covers(rs, x) <==> Covers(ts, x)
    ensures rs[0] == ts[0]
  {
    hide Covers;
    CoversFirst(rs);
    CoversFirst(ts);
    assert Covers(rs, rs[0].first) && Covers(ts, ts[0].first);
    assert !Covers(rs, rs[0].second + 1) && !Covers(ts, ts[0].second + 1);
  }

  lemma CoversTail(rs: seq<Range>, x: int)
    requires Maximal(rs) && rs != []
    ensures Maximal(rs[1..]) && (Covers(rs[1..], x) <==> Covers(rs, x) && x > rs[0].second)
  {
    var tail := rs[1..];
    assert forall i :: 0 <= i < |tail| ==> tail[i] == rs[i + 1];
    if Covers(tail, x) {
      var i :| 0 <= i < |tail| && tail[i].Holds(x);
      assert rs[i + 1].Holds(x);
    }
    if Covers(rs, x) && x > rs[0].second {
      var i :| 0 <= i < |rs| && rs[i].Holds(x);
      assert i > 0 && tail[i - 1].Holds(x);
    }
  }

  /** There is only one list of maximal ranges for the dates it holds. */
  lemma {:induction false} RangesUnique(rs: seq<Range>, ts: seq<Range>)
    requires Maximal(rs) && Maximal(ts)
    requires forall x :: Covers(rs, x) <==> Covers(ts, x)
    ensures rs == ts
    decreases |rs|
  {
    hide Covers;
    NothingCovered();
    if rs != [] { CoversFirst(rs); }
    if ts != [] { CoversFirst(ts); }
    assert rs != [] ==> Covers(rs, rs[0].first);
    assert ts != [] ==> Covers(ts, ts[0].first);
    if rs != [] && ts != [] {
      SameFirstRange(rs, ts);
      CoversTail(rs, 0);
      CoversTail(ts, 0);
      forall x ensures Covers(rs[1..], x) <==> Covers(ts[1..], x) {
        CoversTail(rs, x);
        CoversTail(ts, x);
      }
      RangesUnique(rs[1..], ts[1..]);
      assert rs == [rs[0]] + rs[1..] && ts == [ts[0]] + ts[1..];
    }
  }

  lemma NothingCovered()
    ensures forall x :: !Covers([], x)
  {}

  /** The ranges printed are the only ascending list of maximal, non-adjacent ranges
      that holds exactly the dates. */
  lemma RangesAreTheOnes(dates: seq<int>, rs: seq<Range>)
    requires dates != [] && Ascending(dates)
    ensures rs == Ranges(dates) <==> Maximal(rs) && forall x :: Covers(rs, x) <==> x in dates
  {
    hide Maximal, Covers, Ranges;
    RangesCorrect(dates);
    if Maximal(rs) && forall x :: Covers(rs, x) <==> x in dates {
      RangesUnique(rs, Ranges(dates));
    }
  }

  // ----- printing

  function Format(r: Range): string {
    if r.first == r.second then Signed(r.first) else Signed(r.first) + "-" + Signed(r.second)
  }

  function FormatAll(rs: seq<Range>): (parts: seq<string>)
    ensures |parts| == |rs|
  {
    seq(|rs|, i requires 0 <= i < |rs| => Format(rs[i]))
  }

  /** The text of a sorted list; the program fails on an empty one. */
  function DateStr(dates: seq<int>): Option<string> {
    if dates == [] then None else Some(Join(FormatAll(Ranges(dates)), ','))
  }

  /** datestr: the loop over the sorted list. */
  method PrintDates(sorted: seq<int>) returns (r: Option<string>)
    ensures r == DateStr(sorted)
  {
    hide Format;
    if sorted == [] {
      return None;
    }
    var dates := sorted;
    var output: seq<string> := [];
    var first := dates[0];
    dates := dates[1..];
    var second := first;
    while dates != []
      invariant output + FormatAll(RangesFrom(first, second, dates)) == FormatAll(Ranges(sorted))
      decreases |dates|
    {
      var next := dates[0];
      ghost var tail := RangesFrom(next, next, dates[1..]);
      assert FormatAll([Range(first, second)] + tail) == [Format(Range(first, second))] + FormatAll(tail);
      dates := dates[1..];
      if next == second + 1 {
        second := next;
      } else {
        output := output + [Format(Range(first, second))];
        first := next;
        second := next;
      }
    }
    output := output + [Format(Range(first, second))];
    assert output == FormatAll(Ranges(sorted));
    r := Some(Join(output, ','));
  }

  // ----- reading

  predicate FourDigits(s: string) {
    |s| >= 4 && AllDigits(s[..4])
  }

  /** The pattern of a range, matched at the start of the text: four digits, a
      dash with optional space around it, four digits. */
  function MatchRange(s: string): Option<Range> {
    if !FourDigits(s) then None else
      var rest := LeftStrip(s[4..]);
      if rest == [] || rest[0] != '-' then None else
        var last := LeftStrip(rest[1..]);
        if !FourDigits(last) then None else Some(Range(Value(s[..4]), Value(last[..4])))
  }

  /** Four digits, blanks, a dash, blanks, four digits and anything after them is a
      range. */
  lemma MatchSpaced(first: string, a: string, b: string, last: string)
    requires |first| == 4 && AllDigits(first) && |last| >= 4 && AllDigits(last[..4]) && Blank(a) && Blank(b)
    ensures MatchRange(first + (a + ("-" + (b + last)))) == Some(Range(Value(first), Value(last[..4])))
  {
    hide Value, LeftStrip, AllDigits, Blank;
    var dash := "-" + (b + last);
    PrefixOf(first, a + dash);
    LeftStripBlank(a, dash);
    NothingToLeftStrip(dash);
    PrefixOf("-", b + last);
    LeftStripBlank(b, last);
    FirstDigit(last);
    NothingToLeftStrip(last);
  }

  lemma PrefixOf(s: string, t: string)
    ensures (s + t)[..|s|] == s && (s + t)[|s|..] == t
  {}

  lemma FirstDigit(s: string)
    requires |s| >= 4 && AllDigits(s[..4])
    ensures IsDigit(s[0])
  {
    assert s[0] == s[..4][0];
  }

  lemma NothingToLeftStrip(s: string)
    requires s != [] && (IsDigit(s[0]) || s[0] == '-')
    ensures LeftStrip(s) == s
  {}

  /** range(first, second + 1). */
  function Between(r: Range): set<int> {
    set x | r.first <= x < r.second + 1 && r.Holds(x)
  }

  /** What one stripped piece contributes. */
  function Contribution(s: string): set<int> {
    match MatchRange(s)
    case Some(r) => Between(r)
    case None => if ParseInt(s).Some? then {ParseInt(s).value} else {}
  }

  function Piece(s: string): set<int> {
    Contribution(Strip(s))
  }

  function Pieces(parts: seq<string>): set<int> {
    if parts == [] then {} else Piece(parts[0]) + Pieces(parts[1..])
  }

  function ProcessDates(s: string): set<int> {
    Pieces(Split(s, ','))
  }

  lemma {:induction false} PiecesAppend(parts: seq<string>, s: string)
    ensures Pieces(parts + [s]) == Pieces(parts) + Piece(s)
  {
    hide Piece;
    if parts == [] {
      assert parts + [s] == [s] && [s][1..] == [];
    } else {
      assert (parts + [s])[1..] == parts[1..] + [s];
      PiecesAppend(parts[1..], s);
    }
  }

  /** process_dates: pieces in turn, ranges date by date. */
  method ReadDates(text: string) returns (output: set<int>)
    ensures output == ProcessDates(text)
  {
    hide Contribution;
    var dates := Split(text, ',');
    output := {};
    for i := 0 to |dates|
      invariant output == Pieces(dates[..i])
    {
      assert dates[..i + 1] == dates[..i] + [dates[i]];
      PiecesAppend(dates[..i], dates[i]);
      output := ReadPiece(Strip(dates[i]), output);
    }
    assert dates[..|dates|] == dates;
  }

  method ReadPiece(date: string, before: set<int>) returns (output: set<int>)
    ensures output == before + Contribution(date)
  {
    hide MatchRange, ParseInt;
    output := before;
    match MatchRange(date)
    case Some(r) =>
      var i := r.first;
      while i < r.second + 1
        invariant i <= r.second + 1 || i == r.first
        invariant forall x :: x in output <==> x in before || (r.first <= x < i && r.Holds(x))
      {
        output := output + {i};
        i := i + 1;
      }
    case None =>
      if ParseInt(date).Some? {
        output := output + {ParseInt(date).value};
      }
  }

  // ----- one printed range, read back

  predicate Plain(s: string) {
    forall i :: 0 <= i < |s| ==> IsDigit(s[i]) || s[i] == '-'
  }

  lemma SignedPlain(n: int)
    ensures Plain(Signed(n))
  {
    hide Value;
    if n < 0 {
      var s := Signed(n);
      assert s[1..] == Decimal(-n);
      forall i | 0 <= i < |s| ensures IsDigit(s[i]) || s[i] == '-' {
        if i > 0 { assert s[i] == s[1..][i - 1]; }
      }
    }
  }

  lemma FormatPlain(r: Range)
    ensures Plain(Format(r)) && Format(r) != []
    ensures Lacks(Format(r), ',') && Strip(Format(r)) == Format(r)
  {
    hide Signed;
    SignedPlain(r.first);
    SignedPlain(r.second);
    var s := Format(r);
    PlainStrips(s);
  }

  lemma PlainStrips(s: string)
    requires Plain(s)
    ensures Strip(s) == s && LeftStrip(s) == s && Lacks(s, ',')
  {
    if s != [] {
      assert !IsSpace(s[0]) && !IsSpace(s[|s| - 1]);
    }
  }

  lemma DigitsThenDash(d: string, t: string)
    requires AllDigits(d)
    ensures var s := d + "-" + t;
      && (|d| != 4 ==> MatchRange(s) == None)
      && (|d| == 4 ==> s[..4] == d && s[4..] == "-" + t)
  {
    hide Value;
    var s := d + "-" + t;
    assert s[|d|] == '-';
    if |d| < 4 {
      if |s| >= 4 { assert s[..4][|d|] == '-'; }
    } else if |d| > 4 {
      assert s[4..][0] == d[4] && !IsSpace(d[4]);
    } else {
      assert s[4..] == "-" + t;
    }
  }

  lemma NoDigitFirst(s: string)
    requires s != [] && !IsDigit(s[0])
    ensures !FourDigits(s) && MatchRange(s) == None
  {
    if |s| >= 4 { assert s[..4][0] == s[0]; }
  }

  lemma FourDigitsOfSigned(b: int)
    ensures FourDigits(Signed(b)) <==> b >= 1000
    ensures b >= 1000 ==> |Decimal(b)| >= 4
  {
    if b < 0 {
      NoDigitFirst(Signed(b));
    } else {
      DecimalLength4(b);
      var s := Decimal(b);
      assert |s| >= 4 ==> forall i :: 0 <= i < 4 ==> s[..4][i] == s[i];
    }
  }

  /** A range of two dates or more is matched exactly when its first date has four
      digits and its second at least four; what is read is its second date cut to
      four digits. */
  lemma MatchFormat(a: int, b: int)
    ensures b >= 1000 ==> |Decimal(b)| >= 4
    ensures MatchRange(Signed(a) + "-" + Signed(b))
         == if 1000 <= a < 10000 && b >= 1000 then Some(Range(a, Value(Decimal(b)[..4]))) else None
  {
    hide Value, IsDigit, FourDigits, Decimal;
    FourDigitsOfSigned(b);
    if a < 0 {
      assert !IsDigit('-') by { DashIsNoDigit(); }
      NoDigitFirst(Signed(a) + "-" + Signed(b));
    } else {
      DecimalLength4(a);
      DigitsThenDash(Decimal(a), Signed(b));
      if 1000 <= a < 10000 {
        var s := Signed(a) + "-" + Signed(b);
        FourDigitsOfSigned(a);
        assert FourDigits(s) by { SamePrefix(s, Decimal(a)); }
        ValueOfDecimal(a);
        DashTail(Signed(b));
        SignedPlain(b);
        PlainStrips(Signed(b));
      }
    }
  }

  lemma DashIsNoDigit()
    ensures !IsDigit('-') && !IsSpace('-')
  {}

  lemma SamePrefix(s: string, t: string)
    requires |s| >= 4 && FourDigits(t) && s[..4] == t[..4]
    ensures FourDigits(s)
  {}

  lemma DashTail(t: string)
    ensures LeftStrip("-" + t) == "-" + t && ("-" + t)[1..] == t
  {}

  lemma MatchSingle(n: int)
    ensures MatchRange(Signed(n)) == None
  {
    hide Value;
    var s := Signed(n);
    if n < 0 {
      NoDigitFirst(s);
    } else if |s| > 4 {
      assert s[4..][0] == s[4] && !IsSpace(s[4]);
    }
  }

  ghost predicate Readable(r: Range) {
    r.first == r.second || (1000 <= r.first && r.second <= 9999)
  }

  /** A printed range contributes only its own dates; all of them exactly when it
      is readable, and otherwise not its last one. */
  lemma PieceOfFormat(r: Range)
    requires r.first <= r.second
    ensures forall x :: x in Piece(Format(r)) ==> r.Holds(x)
    ensures Readable(r) ==> forall x :: r.Holds(x) ==> x in Piece(Format(r))
    ensures !Readable(r) ==> r.second !in Piece(Format(r))
  {
    hide Value, Signed, Decimal, MatchRange, ParseInt, Strip;
    FormatPlain(r);
    if r.first == r.second {
      MatchSingle(r.first);
      ParseSigned(r.first);
    } else {
      MatchFormat(r.first, r.second);
      ParseRangeFails(r.first, r.second);
      if r.second >= 1000 {
        PrefixIsSmaller(r.second, 4);
        DecimalLength4(r.second);
        WholeNumber(r.second);
      }
    }
  }

  lemma WholeNumber(n: nat)
    ensures |Decimal(n)| == 4 ==> Value(Decimal(n)[..4]) == n
  {
    ValueOfDecimal(n);
    assert |Decimal(n)| == 4 ==> Decimal(n)[..4] == Decimal(n);
  }

  lemma ParseRangeFails(a: int, b: int)
    ensures ParseInt(Signed(a) + "-" + Signed(b)) == None
  {
    hide Value;
    var s := Signed(a) + "-" + Signed(b);
    var k := |Signed(a)|;
    assert k >= 1 && s[k] == '-' && s[1..][k - 1] == '-';
  }

  // ----- the whole list

  lemma {:induction false} InPieces(parts: seq<string>, x: int)
    ensures x in Pieces(parts) <==> exists i :: 0 <= i < |parts| && x in Piece(parts[i])
  {
    hide Piece;
    if parts != [] {
      var rest := parts[1..];
      InPieces(rest, x);
      if x in Pieces(rest) {
        var i :| 0 <= i < |rest| && x in Piece(rest[i]);
        assert parts[i + 1] == rest[i];
      }
      if i :| 0 <= i < |parts| && x in Piece(parts[i]) {
        if i > 0 { assert rest[i - 1] == parts[i]; }
      }
    }
  }

  lemma ProcessJoined(rs: seq<Range>, x: int)
    requires rs != []
    ensures x in ProcessDates(Join(FormatAll(rs), ',')) <==> exists i :: 0 <= i < |rs| && x in Piece(Format(rs[i]))
  {
    hide Piece, Format, Lacks;
    var parts := FormatAll(rs);
    forall i | 0 <= i < |parts| ensures Lacks(parts[i], ',') {
      FormatPlain(rs[i]);
    }
    SplitOfJoin(parts, ',');
    InPieces(parts, x);
    assert forall i :: 0 <= i < |rs| ==> parts[i] == Format(rs[i]);
  }

  /** No date is invented, and all dates come back exactly when every range of two
      or more lies within 1000 .. 9999. */
  lemma RoundTripIff(dates: seq<int>)
    requires dates != [] && Ascending(dates)
    ensures var read := ProcessDates(DateStr(dates).value);
      && (forall x :: x in read ==> x in dates)
      && ((forall x :: x in dates ==> x in read) <==> forall i :: 0 <= i < |Ranges(dates)| ==> Readable(Ranges(dates)[i]))
  {
    hide Piece, Format, ProcessDates, Readable;
    var rs := Ranges(dates);
    var read := ProcessDates(DateStr(dates).value);
    RangesCorrect(dates);
    forall i | 0 <= i < |rs|
      ensures forall x :: x in Piece(Format(rs[i])) ==> rs[i].Holds(x)
      ensures Readable(rs[i]) ==> forall x :: rs[i].Holds(x) ==> x in Piece(Format(rs[i]))
      ensures !Readable(rs[i]) ==> rs[i].second !in Piece(Format(rs[i]))
    {
      PieceOfFormat(rs[i]);
    }
    forall x ensures x in read <==> exists i :: 0 <= i < |rs| && x in Piece(Format(rs[i])) {
      ProcessJoined(rs, x);
    }
    forall x | x in read ensures x in dates {
      var i :| 0 <= i < |rs| && x in Piece(Format(rs[i]));
      assert rs[i].Holds(x) && Covers(rs, x);
    }
    if forall i :: 0 <= i < |rs| ==> Readable(rs[i]) {
      forall x | x in dates ensures x in read {
        assert Covers(rs, x);
        var i :| 0 <= i < |rs| && rs[i].Holds(x);
        assert x in Piece(Format(rs[i]));
      }
    } else {
      var k :| 0 <= k < |rs| && !Readable(rs[k]);
      LastIsLost(rs, k, read, dates);
    }
  }

  lemma LastIsLost(rs: seq<Range>, k: nat, read: set<int>, dates: seq<int>)
    requires k < |rs| && Maximal(rs) && !Readable(rs[k])
    requires forall x :: Covers(rs, x) <==> x in dates
    requires forall x :: x in read <==> exists i :: 0 <= i < |rs| && x in Piece(Format(rs[i]))
    requires forall i :: 0 <= i < |rs| ==> forall x :: x in Piece(Format(rs[i])) ==> rs[i].Holds(x)
    requires rs[k].second !in Piece(Format(rs[k]))
    ensures rs[k].second in dates && rs[k].second !in read
  {
    hide Piece, Format, Readable;
    var x := rs[k].second;
    assert rs[k].Holds(x) && Covers(rs, x);
    assert forall i :: 0 <= i < |rs| && rs[i].Holds(x) ==> i == k;
  }
}
