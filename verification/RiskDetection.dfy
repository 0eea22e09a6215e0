/** The detector in front of a router's local port (HistoryRecord in
    InputUnit.hh, outportRecord in CommonTypes.hh): a window of the last packets
    injected and, per output port, a window of the last packets sent there. */
module RiskDetection {

  datatype Entry = Entry(src: int, dst: int, inport: int, output: int, cycle: nat)

  const EMPTY: Entry := Entry(0, 0, 0, 0, 0)

  /** entryCmp */
  predicate Same(a: Entry, b: Entry) {
    a.src == b.src && a.dst == b.dst && a.output == b.output
  }

  function Count(table: seq<Entry>, e: Entry): (n: nat)
    ensures n <= |table|
  {
    if table == [] then 0
    else Count(table[..|table| - 1], e) + if Same(e, table[|table| - 1]) then 1 else 0
  }

  /** More than half of the window. */
  predicate Majority(table: seq<Entry>, e: Entry) {
    2 * Count(table, e) > |table|
  }

  lemma {:induction false} CountOfSame(table: seq<Entry>, a: Entry, b: Entry)
    requires Same(a, b)
    ensures Count(table, a) == Count(table, b)
  {
    if table != [] { CountOfSame(table[..|table| - 1], a, b); }
  }

  lemma {:induction false} CountsAddUp(table: seq<Entry>, a: Entry, b: Entry)
    requires !Same(a, b)
    ensures Count(table, a) + Count(table, b) <= |table|
  {
    if table != [] { CountsAddUp(table[..|table| - 1], a, b); }
  }

  /** At most one class of packets holds the majority. */
  lemma MajorityUnique(table: seq<Entry>, a: Entry, b: Entry)
    requires Majority(table, a) && Majority(table, b)
    ensures Same(a, b)
  {
    if !Same(a, b) { CountsAddUp(table, a, b); }
  }

  lemma {:induction false} MajorityOccurs(table: seq<Entry>, e: Entry) returns (i: nat)
    requires Count(table, e) > 0
    ensures i < |table| && Same(e, table[i])
  {
    var n := |table| - 1;
    if Same(e, table[n]) { i := n; } else { i := MajorityOccurs(table[..n], e); }
  }

  /** What identifies the class of a packet. */
  function Triples(table: seq<Entry>): (t: seq<(int, int, int)>)
    ensures |t| == |table|
  {
    seq(|table|, i requires 0 <= i < |table| => (table[i].src, table[i].dst, table[i].output))
  }

  /** The count of a packet is the multiplicity of its source, destination and output
      in the table. */
  lemma {:induction false} CountIsMultiplicity(table: seq<Entry>, e: Entry)
    ensures Count(table, e) == multiset(Triples(table))[(e.src, e.dst, e.output)]
  {
    if table != [] {
      var n := |table| - 1;
      CountIsMultiplicity(table[..n], e);
      assert Triples(table) == Triples(table[..n]) + [(table[n].src, table[n].dst, table[n].output)];
    }
  }

  // ----- the sliding windows

  /** A window of fixed length after pushing items one by one. */
  function Window<T>(start: seq<T>, items: seq<T>): (w: seq<T>)
    requires start != []
    ensures |w| == |start|
  {
    if items == [] then start else Window(start, items[..|items| - 1])[1..] + [items[|items| - 1]]
  }

  /** The window holds the last items pushed. */
  lemma {:induction false} WindowIsSuffix<T>(start: seq<T>, items: seq<T>)
    requires start != []
    ensures Window(start, items) == (start + items)[|items|..]
  {
    if items != [] {
      var n := |items| - 1;
      WindowIsSuffix(start, items[..n]);
      assert start + items == (start + items[..n]) + [items[n]];
    }
  }

  // ----- the record of the output ports

  /** Source and destination router of a packet. */
  type Flow = (int, int)

  const EACH_EN: nat := 8
  const NO_FLOW: Flow := (-1, -1)

  /** How often a flow occurs in a port's record, unused entries aside. */
  function CountFlow(record: seq<Flow>, f: Flow): (n: nat)
    ensures n <= |record|
  {
    if record == [] then 0
    else CountFlow(record[..|record| - 1], f) + if f.0 != -1 && record[|record| - 1] == f then 1 else 0
  }

  /** The count of a flow is its multiplicity; the source -1 of unused entries never
      counts. */
  lemma {:induction false} CountFlowIsMultiplicity(record: seq<Flow>, f: Flow)
    ensures CountFlow(record, f) == if f.0 == -1 then 0 else multiset(record)[f]
  {
    if record != [] {
      var n := |record| - 1;
      CountFlowIsMultiplicity(record[..n], f);
      assert record == record[..n] + [record[n]];
    }
  }

  /** At least half of the record. */
  predicate Contended(record: seq<Flow>, f: Flow) {
    2 * CountFlow(record, f) >= EACH_EN
  }

  lemma {:induction false} NoFlow(record: seq<Flow>, f: Flow)
    requires f !in record
    ensures CountFlow(record, f) == 0
  {
    if record != [] { NoFlow(record[..|record| - 1], f); }
  }

  lemma {:induction false} CountFlowConcat(a: seq<Flow>, b: seq<Flow>, f: Flow)
    ensures CountFlow(a + b, f) == CountFlow(a, f) + CountFlow(b, f)
    decreases |b|
  {
    if b == [] {
      assert a + b == a;
    } else {
      var n := |b| - 1;
      assert (a + b)[..|a| + n] == a + b[..n];
      CountFlowConcat(a, b[..n], f);
    }
  }

  /** The packets among the last eight sent to a port, fewer if fewer were sent. */
  function LastSent(sent: seq<Flow>): seq<Flow> {
    if |sent| <= EACH_EN then sent else sent[|sent| - EACH_EN..]
  }

  function Record(sent: seq<Flow>): seq<Flow> {
    Window(seq(EACH_EN, i => NO_FLOW), sent)
  }

  /** The unused entries of a record never count. */
  lemma CountOfRecord(sent: seq<Flow>, f: Flow)
    ensures CountFlow(Record(sent), f) == CountFlow(LastSent(sent), f)
  {
    var start := seq(EACH_EN, i => NO_FLOW);
    WindowIsSuffix(start, sent);
    if |sent| <= EACH_EN {
      var unused := start[|sent|..];
      assert (start + sent)[|sent|..] == unused + sent;
      CountFlowConcat(unused, sent, f);
      CountUnused(unused, f);
    } else {
      assert (start + sent)[|sent|..] == sent[|sent| - EACH_EN..];
    }
  }

  lemma {:induction false} CountUnused(record: seq<Flow>, f: Flow)
    requires forall i :: 0 <= i < |record| ==> record[i] == NO_FLOW
    ensures CountFlow(record, f) == 0
  {
    if record != [] { CountUnused(record[..|record| - 1], f); }
  }

  class OutportRecord {
    var record: seq<seq<Flow>>
    ghost var sent: seq<seq<Flow>>

    ghost predicate Valid()
      reads this
    {
      |record| == |sent| && forall p :: 0 <= p < |sent| ==> record[p] == Record(sent[p])
    }

    constructor (ports: nat)
      requires ports > 0
      ensures Valid() && sent == seq(ports, p => [])
    {
      record := seq(ports, p => seq(EACH_EN, i => NO_FLOW));
      sent := seq(ports, p => []);
    }

    method Update(outport: nat, src: int, dest: int)
      requires Valid() && outport < |record|
      modifies this
      ensures Valid() && sent == old(sent)[outport := old(sent)[outport] + [(src, dest)]]
    {
      hide Window;
      PushRecord(sent[outport], (src, dest));
      record := record[outport := record[outport][1..] + [(src, dest)]];
      sent := sent[outport := sent[outport] + [(src, dest)]];
    }

    /** findMutual: the first scan and the skipping of unused entries leave the
        number of entries of the flow. */
    method FindMutual(src: int, dest: int, outport: nat) returns (num: nat)
      requires outport < |record|
      ensures num == CountFlow(record[outport], (src, dest))
    {
      var row, f := record[outport], (src, dest);
      num := 0;
      var found := false;
      for i := 0 to |row|
        invariant found <==> f in row[..i]
      {
        found := found || row[i] == f;
        assert row[..i + 1] == row[..i] + [row[i]];
      }
      assert row[..|row|] == row;
      if !found {
        NoFlow(row, f);
        return;
      }
      for i := 0 to |row|
        invariant num == CountFlow(row[..i], f)
      {
        assert row[..i + 1][..i] == row[..i];
        if row[i].0 != -1 && row[i] == f {
          num := num + 1;
        }
      }
    }
  }

  lemma PushRecord(sent: seq<Flow>, f: Flow)
    ensures Record(sent + [f]) == Record(sent)[1..] + [f]
  {
    assert (sent + [f])[..|sent|] == sent;
  }

  // ----- the verdict

  datatype Variant = Regular | Variant1 | Variant2 | Variant3

  /** isVariant on the values the enumeration has. */
  predicate IsVariant(a: nat, v: Variant)
    requires a <= 7
  {
    if a == 0 then v.Regular?
    else if a == 7 then true
    else if a % 2 == 1 then v.Variant1?
    else if (a / 2) % 2 == 1 then v.Variant2?
    else v.Variant3?
  }

  predicate Filled(table: seq<Entry>) {
    forall i :: 0 <= i < |table| ==> table[i].cycle != 0
  }

  /** The result of riskFind, in terms of the window and of the record of the port
      the packet will take.  regular and fluctuation are the outcomes of its two
      timing tests. */
  predicate Risk(table: seq<Entry>, record: seq<Flow>, now: Entry, variant: nat, regular: bool, fluctuation: bool)
    requires variant <= 7
  {
    && Filled(table)
    && (|| (IsVariant(variant, Variant3) && Contended(record, (now.src, now.dst)))
        || (Majority(table, now) &&
            (if IsVariant(variant, Variant2) then true
             else if IsVariant(variant, Variant1) then fluctuation
             else IsVariant(variant, Regular) && regular)))
  }

  /** With every variant enabled, as the input unit calls it, the timing tests
      have no say: a packet is risky exactly when its flow holds the majority of
      a filled window or contends for its output port. */
  lemma TimingIsIrrelevant(table: seq<Entry>, record: seq<Flow>, now: Entry, regular: bool, fluctuation: bool)
    ensures Risk(table, record, now, 7, regular, fluctuation) <==>
            Filled(table) && (Majority(table, now) || Contended(record, (now.src, now.dst)))
  {}

  /** The verdict for every value of the variant: several bits together act like the
      lowest of them, except that all three together act like the second or the
      third. */
  lemma VerdictByVariant(table: seq<Entry>, record: seq<Flow>, now: Entry, variant: nat, regular: bool, fluctuation: bool)
    requires variant <= 7
    ensures var majority := 2 * Count(table, now) > |table|;
      var contended := CountFlow(record, (now.src, now.dst)) >= 4;
      Risk(table, record, now, variant, regular, fluctuation) <==>
      (&& (forall i :: 0 <= i < |table| ==> table[i].cycle != 0)
       && (if variant == 7 then majority || contended
           else if variant == 4 then contended
           else if variant == 2 || variant == 6 then majority
           else if variant == 0 then majority && regular
           else majority && fluctuation))
  {
    hide Count, CountFlow;
  }

  class HistoryRecord {
    var patternTable: seq<Entry>
    ghost var pushed: seq<Entry>
    ghost const length: nat

    ghost predicate Valid()
      reads this
    {
      length > 0 && patternTable == Window(seq(length, i => EMPTY), pushed)
    }

    constructor (size: nat)
      requires size > 0
      ensures Valid() && length == size && pushed == []
    {
      patternTable := seq(size, i => EMPTY);
      length := size;
      pushed := [];
    }

    method UpdateHistory(e: Entry)
      requires Valid()
      modifies this
      ensures Valid() && pushed == old(pushed) + [e]
    {
      patternTable := patternTable[1..] + [e];
      assert (pushed + [e])[..|pushed|] == pushed;
      pushed := pushed + [e];
    }

    /** The table of sums: how many entries match entry i. */
    method Sums() returns (sum: seq<nat>)
      ensures |sum| == |patternTable|
      ensures forall i :: 0 <= i < |sum| ==> sum[i] == Count(patternTable, patternTable[i])
    {
      sum := [];
      for i := 0 to |patternTable|
        invariant |sum| == i
        invariant forall k :: 0 <= k < i ==> sum[k] == Count(patternTable, patternTable[k])
      {
        var n := 0;
        for j := 0 to |patternTable|
          invariant n == Count(patternTable[..j], patternTable[i])
        {
          assert patternTable[..j + 1][..j] == patternTable[..j];
          if Same(patternTable[i], patternTable[j]) {
            n := n + 1;
          }
        }
        assert patternTable[..|patternTable|] == patternTable;
        sum := sum + [n];
      }
    }

    /** riskFind for a packet that will take output port outport. */
    method RiskFind(now: Entry, outBuf: OutportRecord, outport: nat, variant: nat, regular: bool, fluctuation: bool)
      returns (risk: bool)
      requires Valid() && variant <= 7 && outport < |outBuf.record|
      ensures risk == Risk(patternTable, outBuf.record[outport], now, variant, regular, fluctuation)
    {
      hide Count, IsVariant, CountFlow;
      for i := 0 to |patternTable|
        invariant forall k :: 0 <= k < i ==> patternTable[k].cycle != 0
      {
        if patternTable[i].cycle == 0 {
          return false;
        }
      }
      var sum := Sums();
      var riskEntry, find := EMPTY, false;
      for i := 0 to |patternTable|
        invariant find ==> Majority(patternTable, riskEntry)
        invariant !find ==> forall k :: 0 <= k < i ==> !Majority(patternTable, patternTable[k])
      {
        if 2 * sum[i] > |patternTable| {
          riskEntry, find := patternTable[i], true;
        }
      }
      FindMeansMajority(patternTable, now, riskEntry, find);
      if !find && !IsVariant(variant, Variant3) {
        return false;
      }
      if !Same(now, riskEntry) && !IsVariant(variant, Variant3) {
        return false;
      }
      var hasRisk := false;
      if find && Same(now, riskEntry) {
        if IsVariant(variant, Regular) {
          hasRisk := regular;
        }
        if IsVariant(variant, Variant1) {
          hasRisk := fluctuation;
        }
        if IsVariant(variant, Variant2) {
          hasRisk := true;
        }
      }
      if IsVariant(variant, Variant3) {
        var num := outBuf.FindMutual(now.src, now.dst, outport);
        if 2 * num >= EACH_EN {
          hasRisk := true;
        }
      }
      return hasRisk;
    }
  }

  /** Whichever majority entry the scan keeps, comparing with it decides whether
      the packet's own flow is the majority. */
  lemma FindMeansMajority(table: seq<Entry>, now: Entry, riskEntry: Entry, find: bool)
    requires find ==> Majority(table, riskEntry)
    requires !find ==> forall k :: 0 <= k < |table| ==> !Majority(table, table[k])
    ensures find && Same(now, riskEntry) <==> Majority(table, now)
  {
    if Majority(table, now) {
      var i := MajorityOccurs(table, now);
      CountOfSame(table, now, table[i]);
      assert find;
      MajorityUnique(table, now, riskEntry);
    }
    if find && Same(now, riskEntry) {
      CountOfSame(table, now, riskEntry);
    }
  }

  // ----- over a whole injection history

  ghost function Table(history: seq<Entry>, size: nat): seq<Entry>
    requires size > 0
  {
    Window(seq(size, i => EMPTY), history)
  }

  /** For every history of injected packets (all at cycles other than 0) and of packets
      sent to the port it will take, a packet is flagged exactly when the window is
      full and either more than half of the last size packets injected have its
      source, destination and output, or at least four of the last eight sent to the
      port have its source and destination. */
  lemma FlaggedIff(history: seq<Entry>, sent: seq<Flow>, now: Entry, size: nat, regular: bool, fluctuation: bool)
    requires size > 0 && forall i :: 0 <= i < |history| ==> history[i].cycle != 0
    ensures Risk(Table(history, size), Record(sent), now, 7, regular, fluctuation) <==>
      (&& |history| >= size
       && var last := sent[if |sent| <= 8 then 0 else |sent| - 8..];
          || 2 * multiset(Triples(history[|history| - size..]))[(now.src, now.dst, now.output)] > size
          || (now.src != -1 && multiset(last)[(now.src, now.dst)] >= 4))
  {
    hide IsVariant, CountFlow, Record, Count, Triples;
    var start := seq(size, i => EMPTY);
    var table := Table(history, size);
    WindowIsSuffix(start, history);
    TimingIsIrrelevant(table, Record(sent), now, regular, fluctuation);
    CountOfRecord(sent, (now.src, now.dst));
    assert sent[0..] == sent;
    CountFlowIsMultiplicity(LastSent(sent), (now.src, now.dst));
    if |history| >= size {
      assert table == history[|history| - size..];
      CountIsMultiplicity(table, now);
    } else {
      assert table[0] == EMPTY;
      assert !Filled(table);
    }
  }
}
