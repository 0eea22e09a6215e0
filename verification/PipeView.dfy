/** process_trace of o3-pipeview.py around the print queue: what is printed of a
    trace, and what the early stop past the last sequence number or tick leaves
    out. */
module PipeView {
  import opened ReorderBuffer

  // ----- what is printed

  /** The boundaries of print_insts; zero switches a boundary off. */
  datatype Bounds = Bounds(snStart: nat, snStop: nat, tickStart: nat, tickStop: nat, onlyCommitted: bool)
  {
    predicate Keeps(i: Inst) {
      && !(snStart > 0 && i.sn < snStart)
      && !(snStop > 0 && i.sn > snStop)
      && !(tickStart > 0 && i.fetch < tickStart)
      && !(tickStop > 0 && i.fetch > tickStop)
      && !(onlyCommitted && i.retire == 0)
    }
  }

  /** The instructions within the bounds, in order. */
  function Filter(q: seq<Inst>, b: Bounds): seq<Inst> {
    if q == [] then []
    else Filter(q[..|q| - 1], b) + if b.Keeps(q[|q| - 1]) then [q[|q| - 1]] else []
  }

  lemma FilterAppend(q: seq<Inst>, x: Inst, b: Bounds)
    ensures Filter(q + [x], b) == Filter(q, b) + if b.Keeps(x) then [x] else []
  {
    assert (q + [x])[..|q|] == q;
  }

  lemma {:induction false} FilterCount(q: seq<Inst>, b: Bounds, x: Inst)
    ensures multiset(Filter(q, b))[x] == if b.Keeps(x) then multiset(q)[x] else 0
  {
    if q != [] {
      var n := |q| - 1;
      FilterCount(q[..n], b, x);
      assert q == q[..n] + [q[n]];
    }
  }

  lemma {:induction false} FilterMembers(q: seq<Inst>, b: Bounds)
    ensures forall x :: x in Filter(q, b) ==> x in q && b.Keeps(x)
  {
    if q != [] {
      FilterMembers(q[..|q| - 1], b);
    }
  }

  lemma {:induction false} FilterSorted(q: seq<Inst>, b: Bounds)
    requires Sorted(q)
    ensures Sorted(Filter(q, b))
  {
    if q != [] {
      var n := |q| - 1;
      FilterSorted(q[..n], b);
      FilterMembers(q[..n], b);
      hide Filter;
      forall x | x in Filter(q[..n], b) ensures x.sn <= q[n].sn {
        assert x in q[..n];
      }
      SortedAppend(Filter(q[..n], b), q[n]);
      FilterLast(q, b);
    }
  }

  lemma SortedAppend(q: seq<Inst>, x: Inst)
    requires Sorted(q) && forall y :: y in q ==> y.sn <= x.sn
    ensures Sorted(q + [x])
  {}

  lemma FilterLast(q: seq<Inst>, b: Bounds)
    requires q != []
    ensures var n := |q| - 1; Filter(q, b) == Filter(q[..n], b) + if b.Keeps(q[n]) then [q[n]] else []
  {}

  lemma {:induction false} FilterDistinct(q: seq<Inst>, b: Bounds)
    requires DistinctNumbers(q)
    ensures DistinctNumbers(Filter(q, b))
  {
    if q != [] {
      var n := |q| - 1;
      FilterDistinct(q[..n], b);
      FilterMembers(q[..n], b);
      hide Filter;
      forall x | x in Filter(q[..n], b) ensures x.sn != q[n].sn {
        assert x in q[..n];
      }
      DistinctAppend(Filter(q[..n], b), q[n]);
      FilterLast(q, b);
    }
  }

  lemma DistinctAppend(q: seq<Inst>, x: Inst)
    requires DistinctNumbers(q) && forall y :: y in q ==> y.sn != x.sn
    ensures DistinctNumbers(q + [x])
  {}

  // ----- the early stop

  /** A fetch past the bounds ends the run. */
  predicate Stops(x: Inst, b: Bounds, max: nat, drift: nat) {
    (b.tickStop > 0 && x.fetch > b.tickStop + drift) || (b.snStop > 0 && x.sn > b.snStop + max)
  }

  /** How many instructions are queued before the run ends. */
  function StopAt(s: seq<Inst>, b: Bounds, max: nat, drift: nat): (k: nat)
    ensures k <= |s| && (k < |s| ==> Stops(s[k], b, max, drift))
    ensures forall j :: 0 <= j < k ==> !Stops(s[j], b, max, drift)
  {
    if s == [] || Stops(s[0], b, max, drift) then 0 else 1 + StopAt(s[1..], b, max, drift)
  }

  /** What a run prints. */
  function Printed(s: seq<Inst>, b: Bounds, min: nat, max: nat, drift: nat): seq<Inst> {
    Filter(Output(s[..StopAt(s, b, max, drift)], min, max), b)
  }

  /** Which instructions are printed, and how often: those that came before the stop
      and lie within the bounds that are set. */
  lemma PrintedAre(s: seq<Inst>, b: Bounds, min: nat, max: nat, drift: nat, x: Inst)
    ensures var wanted :=
        && (b.snStart == 0 || b.snStart <= x.sn) && (b.snStop == 0 || x.sn <= b.snStop)
        && (b.tickStart == 0 || b.tickStart <= x.fetch) && (b.tickStop == 0 || x.fetch <= b.tickStop)
        && (b.onlyCommitted ==> x.retire > 0);
      multiset(Printed(s, b, min, max, drift))[x] == if wanted then multiset(s[..StopAt(s, b, max, drift)])[x] else 0
  {
    hide Filter, Output, StopAt;
    var p := s[..StopAt(s, b, max, drift)];
    FilterCount(Output(p, min, max), b, x);
    OutputConserves(p, min, max);
  }

  /** The stop is at the first instruction more than the drift past the last tick or
      more than max past the last number. */
  lemma StopIsFirst(s: seq<Inst>, b: Bounds, max: nat, drift: nat, k: nat)
    requires k < |s|
    ensures k < StopAt(s, b, max, drift) <==>
      forall j :: 0 <= j <= k ==>
        && (b.tickStop == 0 || s[j].fetch <= b.tickStop + drift) && (b.snStop == 0 || s[j].sn <= b.snStop + max)
  {
    hide StopAt;
  }

  lemma PrefixOnTime(s: seq<Inst>, k: nat, min: nat, max: nat)
    requires OnTime(s, min, max) && k <= |s|
    ensures OnTime(s[..k], min, max)
  {
    hide Drained, CountAtMost;
    forall t, j | 0 <= t <= j < k ensures CountAtMost(s[..k][..t], s[..k][j].sn) >= Drained(t, min, max) {
      assert s[..k][..t] == s[..t];
    }
  }

  lemma OnTimeIsSorted(s: seq<Inst>, min: nat, max: nat)
    requires OnTime(s, min, max) && DistinctNumbers(s)
    ensures Output(s, min, max) == Sort(s)
  {
    hide Output, Sort, DistinctNumbers, OnTime;
    SortedIffOnTime(s, min, max);
    OutputConserves(s, min, max);
    DistinctSort(s);
    SortedUnique(Sort(s), Output(s, min, max));
  }

  /** The print is the sorted trace within the bounds exactly when no instruction
      from the stop on is within them. */
  lemma NothingLostIff(s: seq<Inst>, b: Bounds, min: nat, max: nat, drift: nat)
    requires OnTime(s, min, max) && DistinctNumbers(s)
    ensures Printed(s, b, min, max, drift) == Filter(Sort(s), b) <==>
            forall j :: StopAt(s, b, max, drift) <= j < |s| ==> !b.Keeps(s[j])
  {
    hide Output, Sort, OnTime, Filter, StopAt;
    var k := StopAt(s, b, max, drift);
    var p := s[..k];
    PrefixOnTime(s, k, min, max);
    OnTimeIsSorted(p, min, max);
    if forall j :: k <= j < |s| ==> !b.Keeps(s[j]) {
      DistinctSort(p);
      FilterSorted(Sort(p), b);
      FilterSorted(Sort(s), b);
      FilterDistinct(Sort(p), b);
      forall x ensures multiset(Filter(Sort(p), b))[x] == multiset(Filter(Sort(s), b))[x] {
        FilterCount(Sort(p), b, x);
        FilterCount(Sort(s), b, x);
        KeptBefore(s, k, b, x);
      }
      assert multiset(Filter(Sort(p), b)) == multiset(Filter(Sort(s), b));
      SortedUnique(Filter(Sort(p), b), Filter(Sort(s), b));
    } else {
      var j :| k <= j < |s| && b.Keeps(s[j]);
      FilterCount(Sort(p), b, s[j]);
      FilterCount(Sort(s), b, s[j]);
      OnlyLater(s, k, j);
    }
  }

  lemma KeptBefore(s: seq<Inst>, k: nat, b: Bounds, x: Inst)
    requires k <= |s| && forall j :: k <= j < |s| ==> !b.Keeps(s[j])
    ensures b.Keeps(x) ==> multiset(s[..k])[x] == multiset(s)[x]
  {
    assert s == s[..k] + s[k..];
    assert b.Keeps(x) ==> x !in s[k..];
  }

  lemma OnlyLater(s: seq<Inst>, k: nat, j: nat)
    requires k <= j < |s| && DistinctNumbers(s)
    ensures multiset(s[..k])[s[j]] == 0 && multiset(s)[s[j]] > 0
  {
    assert s[j] in s && s[j] !in s[..k];
  }

  // ----- when the stop loses nothing

  /** No instruction arrives more than k places before its place. */
  ghost predicate AtMostEarly(s: seq<Inst>, k: nat) {
    forall j :: 0 <= j < |s| ==> CountBelow(s, s[j].sn) <= j + k
  }

  /** The numbers are base, base + 1, and so on, in some order. */
  ghost predicate Consecutive(s: seq<Inst>, base: nat) {
    DistinctNumbers(s) && forall j :: 0 <= j < |s| ==> s[j].sn == base + CountBelow(s, s[j].sn)
  }

  /** No instruction is fetched more than drift ticks before an earlier one. */
  ghost predicate WithinDrift(s: seq<Inst>, drift: nat) {
    forall i, j :: 0 <= i < j < |s| ==> s[i].fetch <= s[j].fetch + drift
  }

  /** With ticks out of order by at most the drift, and consecutive numbers out of
      order by at most min places either way where max + 1 >= 2 min, the stop
      loses nothing. */
  lemma StopLosesNothing(s: seq<Inst>, b: Bounds, min: nat, max: nat, drift: nat, base: nat)
    requires b.tickStop > 0 ==> WithinDrift(s, drift)
    requires b.snStop > 0 ==> Consecutive(s, base) && AtMostLate(s, min) && AtMostEarly(s, min) && max + 1 >= 2 * min
    ensures forall j :: StopAt(s, b, max, drift) <= j < |s| ==> !b.Keeps(s[j])
  {
    hide StopAt, CountBelow;
    var k := StopAt(s, b, max, drift);
    forall j | k <= j < |s| ensures !b.Keeps(s[j]) {
      assert Stops(s[k], b, max, drift);
    }
  }

  /** The whole: such a trace is printed sorted and complete within the bounds. */
  lemma PrintedIsComplete(s: seq<Inst>, b: Bounds, min: nat, max: nat, drift: nat, base: nat)
    requires DistinctNumbers(s) && AtMostLate(s, min)
    requires b.tickStop > 0 ==> WithinDrift(s, drift)
    requires b.snStop > 0 ==> Consecutive(s, base) && AtMostEarly(s, min) && max + 1 >= 2 * min
    ensures Printed(s, b, min, max, drift) == Filter(Sort(s), b)
  {
    hide *;
    LatenessSuffices(s, min, max);
    StopLosesNothing(s, b, min, max, drift, base);
    NothingLostIff(s, b, min, max, drift);
  }

  // ----- the bound on the thresholds is exact

  /** Instructions numbered lo, lo + 1, ... */
  function Numbered(lo: nat, n: nat): (q: seq<Inst>)
    ensures |q| == n && forall i :: 0 <= i < n ==> q[i].sn == lo + i
  {
    seq(n, i requires 0 <= i < n => Inst(lo + i, 0, 0, ""))
  }

  /** How many of lo .. lo + n - 1 are at most v. */
  function Clamp(lo: nat, n: nat, v: nat): nat {
    if v < lo then 0 else if v - lo + 1 > n then n else v - lo + 1
  }

  lemma {:induction false} CountNumbered(lo: nat, n: nat, v: nat)
    ensures CountAtMost(Numbered(lo, n), v) == Clamp(lo, n, v)
    decreases n
  {
    if n > 0 {
      assert Numbered(lo, n)[1..] == Numbered(lo + 1, n - 1);
      CountNumbered(lo + 1, n - 1, v);
    }
  }

  /** 2 .. d, then 2 d, then 1, then d + 1 .. 2 d - 1: the largest is d places early
      and the smallest, right after it, d places late. */
  function Crossed(d: nat): (s: seq<Inst>)
    requires d >= 1
    ensures |s| == 2 * d
  {
    Numbered(2, d - 1) + (Numbered(2 * d, 1) + (Numbered(1, 1) + Numbered(d + 1, d - 1)))
  }

  lemma CrossedAt(d: nat, j: nat)
    requires d >= 1 && j < 2 * d
    ensures Crossed(d)[j].sn == if j < d - 1 then j + 2 else if j == d - 1 then 2 * d else if j == d then 1 else j
  {
    hide Numbered;
  }

  lemma CountCrossed(d: nat, v: nat)
    requires d >= 1 && v < 2 * d
    ensures CountAtMost(Crossed(d), v) == v
  {
    hide Numbered, CountAtMost;
    var a, b, c, e := Numbered(2, d - 1), Numbered(2 * d, 1), Numbered(1, 1), Numbered(d + 1, d - 1);
    CountConcat(a, b + (c + e), v);
    CountConcat(b, c + e, v);
    CountConcat(c, e, v);
    CountNumbered(2, d - 1, v);
    CountNumbered(2 * d, 1, v);
    CountNumbered(1, 1, v);
    CountNumbered(d + 1, d - 1, v);
  }

  lemma CrossedIsAllowed(d: nat)
    requires d >= 1
    ensures Consecutive(Crossed(d), 1) && AtMostLate(Crossed(d), d) && AtMostEarly(Crossed(d), d)
  {
    hide Crossed, CountAtMost;
    var s := Crossed(d);
    forall j | 0 <= j < |s| ensures 1 <= s[j].sn <= 2 * d && CountBelow(s, s[j].sn) == s[j].sn - 1 {
      CrossedAt(d, j);
      CountCrossed(d, s[j].sn - 1);
    }
    forall j | 0 <= j < |s| ensures s[j].sn - 1 <= j + d && j <= s[j].sn - 1 + d {
      CrossedAt(d, j);
    }
    forall i, j | 0 <= i < j < |s| ensures s[i].sn != s[j].sn {
      CrossedAt(d, i);
      CrossedAt(d, j);
    }
  }

  /** The stop at a sequence number loses nothing of any trace with consecutive numbers
      out of order by at most min places either way. */
  ghost predicate StopIsHarmless(min: nat, max: nat) {
    forall s, b: Bounds, base, j ::
      Consecutive(s, base) && AtMostLate(s, min) && AtMostEarly(s, min) && b.tickStop == 0 && StopAt(s, b, max, 0) <= j < |s|
      ==> !b.Keeps(s[j])
  }

  /** That is so exactly when max + 1 >= 2 min. */
  lemma StopIsHarmlessIff(min: nat, max: nat)
    ensures StopIsHarmless(min, max) <==> max + 1 >= 2 * min
  {
    hide StopAt, Consecutive, AtMostLate, AtMostEarly, Crossed;
    if max + 1 >= 2 * min {
      forall s, b: Bounds, base: nat, j |
        Consecutive(s, base) && AtMostLate(s, min) && AtMostEarly(s, min) && b.tickStop == 0 && StopAt(s, b, max, 0) <= j < |s|
        ensures !b.Keeps(s[j])
      {
        StopLosesNothing(s, b, min, max, 0, base);
      }
    } else {
      var s, b := Crossed(min), Bounds(0, 1, 0, 0, false);
      CrossedIsAllowed(min);
      CrossedAt(min, min - 1);
      CrossedAt(min, min);
      assert Stops(s[min - 1], b, max, 0);
      assert StopAt(s, b, max, 0) <= min && b.Keeps(s[min]);
    }
  }

  /** The stop at a tick loses nothing of any trace whose ticks are out of order by at
      most k. */
  ghost predicate TickStopIsHarmless(k: nat, drift: nat) {
    forall s, b: Bounds, max, j ::
      WithinDrift(s, k) && b.snStop == 0 && StopAt(s, b, max, drift) <= j < |s| ==> !b.Keeps(s[j])
  }

  /** That is so exactly when k is within the drift. */
  lemma TickStopIsHarmlessIff(k: nat, drift: nat)
    ensures TickStopIsHarmless(k, drift) <==> k <= drift
  {
    hide StopAt;
    if k <= drift {
      forall s, b: Bounds, max: nat, j | WithinDrift(s, k) && b.snStop == 0 && StopAt(s, b, max, drift) <= j < |s|
        ensures !b.Keeps(s[j])
      {
        StopLosesNothing(s, b, 0, max, drift, 0);
      }
    } else {
      var s, b := [Inst(1, drift + 2, 0, ""), Inst(2, 1, 0, "")], Bounds(0, 0, 0, 1, false);
      assert WithinDrift(s, k);
      assert Stops(s[0], b, 0, drift) && StopAt(s, b, 0, drift) <= 1 && b.Keeps(s[1]);
    }
  }

  // ----- the queue in place

  lemma PopNext(p: seq<Inst>, q: seq<Inst>, k: nat)
    requires k < |q|
    ensures p + q[..k] + [q[k]] == p + q[..k + 1]
    ensures q[k..][0] == q[k] && q[k..][1..] == q[k + 1..]
  {}

  class PrintQueue {
    var queue: seq<Inst>
    var printed: seq<Inst>
    ghost var popped: seq<Inst>
    const min: nat
    const max: nat
    const bounds: Bounds

    constructor (min: nat, max: nat, bounds: Bounds)
      ensures this.min == min && this.max == max && this.bounds == bounds
      ensures Contents() == Buffer([], []) && Valid()
    {
      this.min, this.max, this.bounds := min, max, bounds;
      queue, printed, popped := [], [], [];
    }

    ghost predicate Valid()
      reads this
    {
      printed == Filter(popped, bounds)
    }

    ghost function Contents(): Buffer
      reads this
    {
      Buffer(queue, popped)
    }

    method QueueInst(inst: Inst)
      requires Valid()
      modifies this
      ensures Valid() && Contents() == Push(old(Contents()), inst, min, max)
    {
      queue := queue + [inst];
      if |queue| > max {
        PrintInsts(min);
      }
    }

    method PrintInsts(lower: nat)
      requires Valid()
      modifies this
      ensures Valid() && Contents() == Drain(old(Contents()), lower)
    {
      hide Sort, Filter;
      queue := Sort(queue);
      ghost var sorted, k := queue, 0;
      while |queue| > lower
        invariant printed == Filter(popped, bounds)
        invariant k <= |sorted| && queue == sorted[k..] && popped == old(popped) + sorted[..k]
        invariant k == 0 || |queue| >= lower
      {
        var item := queue[0];
        FilterAppend(popped, item, bounds);
        PopNext(old(popped), sorted, k);
        queue := queue[1..];
        popped, k := popped + [item], k + 1;
        if bounds.Keeps(item) {
          printed := printed + [item];
        }
      }
    }

    /** A whole trace, as process_trace feeds it: instructions are queued up to the
        stop and the queue is flushed. */
    method Process(trace: seq<Inst>, drift: nat)
      requires Valid() && Contents() == Buffer([], [])
      modifies this
      ensures Valid() && queue == [] && printed == Printed(trace, bounds, min, max, drift)
    {
      hide Sort, Filter, Push, Drain, StopAt;
      ghost var k := StopAt(trace, bounds, max, drift);
      var t := 0;
      while t < |trace| && !Stops(trace[t], bounds, max, drift)
        invariant 0 <= t <= k
        invariant Valid() && Contents() == Run(trace[..k], t, min, max)
      {
        assert trace[..k][t] == trace[t];
        QueueInst(trace[t]);
        t := t + 1;
      }
      DrainLengths(Contents(), 0);
      PrintInsts(0);
    }
  }
}
