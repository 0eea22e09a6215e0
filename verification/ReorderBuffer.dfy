/** The print queue of o3-pipeview.py: instructions arrive out of order, are
    sorted whenever the queue overflows its upper threshold, and leave from the
    front until the lower threshold is reached. */
module ReorderBuffer {

  datatype Inst = Inst(sn: nat, fetch: nat, retire: nat, disasm: string)

  ghost predicate Sorted(q: seq<Inst>) {
    forall i, j :: 0 <= i < j < |q| ==> q[i].sn <= q[j].sn
  }

  /** The list sort by sequence number (stable, as Python's is). */
  function Sort(q: seq<Inst>): (s: seq<Inst>)
    ensures Sorted(s) && multiset(s) == multiset(q) && |s| == |q|
  {
    if q == [] then [] else
      assert q == [q[0]] + q[1..];
      Insert(q[0], Sort(q[1..]))
  }

  function Insert(x: Inst, s: seq<Inst>): (r: seq<Inst>)
    requires Sorted(s)
    ensures Sorted(r) && multiset(r) == multiset(s) + multiset{x} && |r| == |s| + 1
    ensures forall y :: y in r ==> y == x || y in s
  {
    if s == [] || x.sn <= s[0].sn then [x] + s
    else
      var t := Insert(x, s[1..]);
      InsertTail(x, s, t);
      [s[0]] + t
  }

  lemma InsertTail(x: Inst, s: seq<Inst>, t: seq<Inst>)
    requires s != [] && Sorted(s) && s[0].sn <= x.sn && Sorted(t)
    requires multiset(t) == multiset(s[1..]) + multiset{x} && |t| == |s|
    requires forall y :: y in t ==> y == x || y in s[1..]
    ensures Sorted([s[0]] + t) && multiset([s[0]] + t) == multiset(s) + multiset{x}
    ensures forall y :: y in [s[0]] + t ==> y == x || y in s
  {
    assert s == [s[0]] + s[1..];
    forall y | y in t ensures s[0].sn <= y.sn {}
    SortedCons(s[0], t);
  }

  lemma SortedCons(x: Inst, t: seq<Inst>)
    requires Sorted(t) && forall y :: y in t ==> x.sn <= y.sn
    ensures Sorted([x] + t)
  {
    var r := [x] + t;
    forall i, j | 0 <= i < j < |r| ensures r[i].sn <= r[j].sn {
      assert r[j] == t[j - 1];
      assert i > 0 ==> r[i] == t[i - 1];
    }
  }

  // ----- the queue as a state machine

  datatype Buffer = Buffer(queue: seq<Inst>, popped: seq<Inst>)

  /** print_insts: sort, then pop from the front down to the threshold. */
  function Drain(b: Buffer, lower: nat): Buffer {
    var s := Sort(b.queue);
    var k := if |s| > lower then |s| - lower else 0;
    Buffer(s[k..], b.popped + s[..k])
  }

  /** queue_inst: append, and drain to min once the queue exceeds max. */
  function Push(b: Buffer, x: Inst, min: nat, max: nat): Buffer {
    var q := Buffer(b.queue + [x], b.popped);
    if |q.queue| > max then Drain(q, min) else q
  }

  /** The buffer after the first t instructions of a trace. */
  function Run(s: seq<Inst>, t: nat, min: nat, max: nat): Buffer
    requires t <= |s|
  {
    if t == 0 then Buffer([], []) else Push(Run(s, t - 1, min, max), s[t - 1], min, max)
  }

  /** Everything popped over a whole trace, the final flush included. */
  function Output(s: seq<Inst>, min: nat, max: nat): seq<Inst> {
    Drain(Run(s, |s|, min, max), 0).popped
  }

  // ----- the exact condition

  function CountAtMost(q: seq<Inst>, v: nat): (n: nat)
    ensures n <= |q|
  {
    if q == [] then 0 else (if q[0].sn <= v then 1 else 0) + CountAtMost(q[1..], v)
  }

  /** How many instructions have been popped after t arrivals: a function of the
      thresholds alone. */
  function Drained(t: nat, min: nat, max: nat): (d: nat)
    ensures d <= t && (d > 0 ==> d + min <= t)
  {
    if t == 0 then 0 else
      var d := Drained(t - 1, min, max);
      if t - d > max && t - d > min then t - min else d
  }

  /** At every moment of the trace, every instruction still to come has at least
      as many arrived instructions not after it as have been popped. */
  ghost predicate OnTime(s: seq<Inst>, min: nat, max: nat) {
    forall t, j :: 0 <= t <= j < |s| ==> CountAtMost(s[..t], s[j].sn) >= Drained(t, min, max)
  }

  /** No instruction arrives more than k places after its place in sequence
      order. */
  ghost predicate AtMostLate(s: seq<Inst>, k: nat) {
    forall j :: 0 <= j < |s| ==> j <= CountBelow(s, s[j].sn) + k
  }

  function CountBelow(q: seq<Inst>, v: nat): nat {
    if v == 0 then 0 else CountAtMost(q, v - 1)
  }

  // ----- counting

  lemma {:induction false} CountConcat(a: seq<Inst>, b: seq<Inst>, v: nat)
    ensures CountAtMost(a + b, v) == CountAtMost(a, v) + CountAtMost(b, v)
  {
    if a == [] {
      assert a + b == b;
    } else {
      CountConcat(a[1..], b, v);
      assert (a + b)[1..] == a[1..] + b;
    }
  }

  lemma {:induction false} CountInsert(x: Inst, s: seq<Inst>, v: nat)
    requires Sorted(s)
    ensures CountAtMost(Insert(x, s), v) == CountAtMost(s, v) + if x.sn <= v then 1 else 0
  {
    if s == [] || x.sn <= s[0].sn {
      assert ([x] + s)[1..] == s;
    } else {
      CountInsert(x, s[1..], v);
      assert ([s[0]] + Insert(x, s[1..]))[1..] == Insert(x, s[1..]);
    }
  }

  lemma {:induction false} CountSort(q: seq<Inst>, v: nat)
    ensures CountAtMost(Sort(q), v) == CountAtMost(q, v)
  {
    if q != [] {
      CountSort(q[1..], v);
      CountInsert(q[0], Sort(q[1..]), v);
    }
  }

  lemma {:induction false} CountAll(q: seq<Inst>, v: nat)
    requires forall i :: 0 <= i < |q| ==> q[i].sn <= v
    ensures CountAtMost(q, v) == |q|
  {
    if q != [] { CountAll(q[1..], v); }
  }

  lemma {:induction false} CountNone(q: seq<Inst>, v: nat)
    requires forall i :: 0 <= i < |q| ==> q[i].sn > v
    ensures CountAtMost(q, v) == 0
  {
    if q != [] { CountNone(q[1..], v); }
  }

  lemma {:induction false} CountMonotone(q: seq<Inst>, v: nat, w: nat)
    requires v <= w
    ensures CountAtMost(q, v) <= CountAtMost(q, w)
  {
    if q != [] { CountMonotone(q[1..], v, w); }
  }

  // ----- what every step keeps

  lemma DrainPrefix(b: Buffer, lower: nat)
    ensures b.popped <= Drain(b, lower).popped
  {}

  lemma DrainLengths(b: Buffer, lower: nat)
    ensures var d := Drain(b, lower);
      && |d.popped| + |d.queue| == |b.popped| + |b.queue|
      && |d.queue| == if |b.queue| > lower then lower else |b.queue|
  {}

  lemma DrainKeeps(b: Buffer, lower: nat, v: nat)
    ensures var d := Drain(b, lower);
      && multiset(d.popped) + multiset(d.queue) == multiset(b.popped) + multiset(b.queue)
      && CountAtMost(d.popped, v) + CountAtMost(d.queue, v) == CountAtMost(b.popped, v) + CountAtMost(b.queue, v)
  {
    hide Sort, CountAtMost;
    var d, s := Drain(b, lower), Sort(b.queue);
    var k := if |s| > lower then |s| - lower else 0;
    assert s == s[..k] + s[k..];
    CountSort(b.queue, v);
    CountConcat(s[..k], s[k..], v);
    CountConcat(b.popped, s[..k], v);
  }

  /** Nothing is lost or duplicated, at any moment of any trace. */
  lemma {:induction false} RunConserves(s: seq<Inst>, t: nat, min: nat, max: nat, v: nat)
    requires t <= |s|
    ensures var b := Run(s, t, min, max);
      && multiset(b.popped) + multiset(b.queue) == multiset(s[..t])
      && CountAtMost(b.popped, v) + CountAtMost(b.queue, v) == CountAtMost(s[..t], v)
  {
    hide Drain, CountAtMost;
    if t == 0 {
      CountNone([], v);
    } else {
      var b, x := Run(s, t - 1, min, max), s[t - 1];
      RunConserves(s, t - 1, min, max, v);
      assert s[..t] == s[..t - 1] + [x];
      CountConcat(s[..t - 1], [x], v);
      CountConcat(b.queue, [x], v);
      DrainKeeps(Buffer(b.queue + [x], b.popped), min, v);
    }
  }

  lemma {:induction false} RunLengths(s: seq<Inst>, t: nat, min: nat, max: nat)
    requires t <= |s|
    ensures var b := Run(s, t, min, max);
      |b.popped| == Drained(t, min, max) && |b.queue| == t - Drained(t, min, max)
  {
    hide Drain;
    if t > 0 {
      RunLengths(s, t - 1, min, max);
      var b := Run(s, t - 1, min, max);
      var q := Buffer(b.queue + [s[t - 1]], b.popped);
      DrainLengths(q, min);
      assert |q.queue| == t - Drained(t - 1, min, max);
    }
  }

  lemma {:induction false} PoppedGrows(s: seq<Inst>, t: nat, u: nat, min: nat, max: nat)
    requires t <= u <= |s|
    ensures Run(s, t, min, max).popped <= Run(s, u, min, max).popped
    decreases u
  {
    hide Drain;
    if t < u {
      PoppedGrows(s, t, u - 1, min, max);
      var b := Run(s, u - 1, min, max);
      DrainPrefix(Buffer(b.queue + [s[u - 1]], b.popped), min);
    }
  }

  lemma OutputConserves(s: seq<Inst>, min: nat, max: nat)
    ensures multiset(Output(s, min, max)) == multiset(s)
    ensures |Output(s, min, max)| == |s|
  {
    hide Drain, CountAtMost, Run;
    var b := Run(s, |s|, min, max);
    RunConserves(s, |s|, min, max, 0);
    RunLengths(s, |s|, min, max);
    DrainKeeps(b, 0, 0);
    DrainLengths(b, 0);
    assert s[..|s|] == s;
  }

  // ----- sufficiency

  /** Popped instructions are in order and before everything queued. */
  ghost predicate InOrder(b: Buffer) {
    && Sorted(b.popped)
    && forall i, j :: 0 <= i < |b.popped| && 0 <= j < |b.queue| ==> b.popped[i].sn <= b.queue[j].sn
  }

  lemma DrainInOrder(b: Buffer, lower: nat)
    requires InOrder(b)
    ensures InOrder(Drain(b, lower))
  {
    hide Sort;
    var d, s := Drain(b, lower), Sort(b.queue);
    forall y | y in s ensures y in b.queue {
      assert y in multiset(s);
    }
    forall i, j | 0 <= i < |b.popped| && 0 <= j < |s| ensures b.popped[i].sn <= s[j].sn {
      assert s[j] in b.queue;
    }
  }

  /** If enough of s[..t] precedes a later arrival, it precedes nothing popped. */
  lemma PoppedBefore(s: seq<Inst>, t: nat, j: nat, min: nat, max: nat)
    requires t <= j < |s| && InOrder(Run(s, t, min, max))
    requires CountAtMost(s[..t], s[j].sn) >= Drained(t, min, max)
    ensures forall i :: 0 <= i < Drained(t, min, max) && i < |Run(s, t, min, max).popped|
              ==> Run(s, t, min, max).popped[i].sn <= s[j].sn
  {
    hide Run, Drained;
    var b, v := Run(s, t, min, max), s[j].sn;
    RunLengths(s, t, min, max);
    RunConserves(s, t, min, max, v);
    var n := |b.popped|;
    if n > 0 {
      CountConcat(b.popped[..n - 1], [b.popped[n - 1]], v);
      assert b.popped == b.popped[..n - 1] + [b.popped[n - 1]];
      if b.popped[n - 1].sn > v {
        CountNone([b.popped[n - 1]], v);
        CountNone(b.queue, v);
      }
    }
  }

  lemma {:induction false} RunInOrder(s: seq<Inst>, t: nat, min: nat, max: nat)
    requires t <= |s| && OnTime(s, min, max)
    ensures InOrder(Run(s, t, min, max))
  {
    hide Drain, CountAtMost, Drained;
    if t > 0 {
      RunInOrder(s, t - 1, min, max);
      var b, x := Run(s, t - 1, min, max), s[t - 1];
      RunLengths(s, t - 1, min, max);
      PoppedBefore(s, t - 1, t - 1, min, max);
      var q := Buffer(b.queue + [x], b.popped);
      assert InOrder(q);
      DrainInOrder(q, min);
    }
  }

  // ----- necessity

  lemma CancelLeft(a: multiset<Inst>, x: multiset<Inst>, y: multiset<Inst>)
    requires a + x == a + y
    ensures x == y
  {
    assert x == (a + x) - a;
    assert y == (a + y) - a;
  }

  lemma TailIsStillToCome(s: seq<Inst>, t: nat, j: nat, min: nat, max: nat)
    requires t <= j < |s|
    ensures var p := Run(s, t, min, max).popped; var o := Output(s, min, max);
      p <= o && s[j] in o[|p|..]
  {
    hide Drain, CountAtMost, Run;
    var b, e := Run(s, t, min, max), Run(s, |s|, min, max);
    PoppedGrows(s, t, |s|, min, max);
    DrainPrefix(e, 0);
    RunConserves(s, t, min, max, 0);
    OutputConserves(s, min, max);
    var o := Output(s, min, max);
    var n := |b.popped|;
    assert o == b.popped + o[n..];
    assert s == s[..t] + s[t..];
    assert multiset(o) == multiset(b.popped) + multiset(o[n..]);
    assert multiset(s) == multiset(s[..t]) + multiset(s[t..]);
    CancelLeft(multiset(b.popped), multiset(o[n..]), multiset(b.queue) + multiset(s[t..]));
    assert s[j] in s[t..] by { assert s[t..][j - t] == s[j]; }
    assert s[j] in multiset(o[n..]);
  }

  lemma LateMakesDisorder(s: seq<Inst>, t: nat, j: nat, min: nat, max: nat)
    requires t <= j < |s|
    requires CountAtMost(s[..t], s[j].sn) < Drained(t, min, max)
    ensures !Sorted(Output(s, min, max))
  {
    hide Drain, Run, Drained, Output;
    var p, o, v := Run(s, t, min, max).popped, Output(s, min, max), s[j].sn;
    RunLengths(s, t, min, max);
    RunConserves(s, t, min, max, v);
    if forall i :: 0 <= i < |p| ==> p[i].sn <= v {
      CountAll(p, v);
    }
    var i :| 0 <= i < |p| && p[i].sn > v;
    TailIsStillToCome(s, t, j, min, max);
    var k :| 0 <= k < |o[|p|..]| && o[|p|..][k] == s[j];
    assert o[i] == p[i] && o[|p| + k] == s[j];
  }

  /** The output of a trace is in sequence order exactly when the trace is on
      time, whatever the thresholds. */
  lemma SortedIffOnTime(s: seq<Inst>, min: nat, max: nat)
    ensures Sorted(Output(s, min, max)) <==> OnTime(s, min, max)
  {
    hide Drain, CountAtMost, Drained, Run;
    if OnTime(s, min, max) {
      RunInOrder(s, |s|, min, max);
      DrainInOrder(Run(s, |s|, min, max), 0);
    } else {
      var t, j :| 0 <= t <= j < |s| && CountAtMost(s[..t], s[j].sn) < Drained(t, min, max);
      LateMakesDisorder(s, t, j, min, max);
    }
  }

  // ----- the condition stated beside the queue

  lemma {:induction false} EarliestOf(q: seq<Inst>) returns (m: nat)
    requires q != []
    ensures m < |q| && forall i :: 0 <= i < |q| ==> q[m].sn <= q[i].sn
  {
    if |q| == 1 {
      m := 0;
    } else {
      var k := EarliestOf(q[1..]);
      assert forall i :: 1 <= i < |q| ==> q[i] == q[1..][i - 1];
      m := if q[0].sn <= q[k + 1].sn then 0 else k + 1;
    }
  }

  /** A trace in which no instruction is more than min places late is on time. */
  lemma LatenessSuffices(s: seq<Inst>, min: nat, max: nat)
    requires AtMostLate(s, min)
    ensures OnTime(s, min, max)
  {
    hide Drained;
    forall t, j | 0 <= t <= j < |s| ensures CountAtMost(s[..t], s[j].sn) >= Drained(t, min, max) {
      var m := EarliestOf(s[t..]);
      var e := t + m;
      assert s[t..][m] == s[e] && s[t..][j - t] == s[j];
      assert e <= CountBelow(s, s[e].sn) + min;
      if s[e].sn > 0 {
        var v := s[e].sn - 1;
        assert s == s[..t] + s[t..];
        CountConcat(s[..t], s[t..], v);
        CountNone(s[t..], v);
        CountMonotone(s[..t], v, s[j].sn);
      }
    }
  }

  ghost predicate DistinctNumbers(s: seq<Inst>) {
    forall i, j :: 0 <= i < j < |s| ==> s[i].sn != s[j].sn
  }

  lemma {:induction false} SortedUnique(a: seq<Inst>, b: seq<Inst>)
    requires Sorted(a) && Sorted(b) && multiset(a) == multiset(b) && DistinctNumbers(a)
    ensures a == b
    decreases |a|
  {
    hide Sorted, DistinctNumbers;
    SameLength(a, b);
    if a != [] {
      SameFirst(a, b);
      TailOf(a);
      TailOf(b);
      DistinctTail(a);
      SortedUnique(a[1..], b[1..]);
      assert a == [a[0]] + a[1..] && b == [b[0]] + b[1..];
    }
  }

  lemma TailOf(a: seq<Inst>)
    requires a != [] && Sorted(a)
    ensures Sorted(a[1..]) && multiset(a[1..]) == multiset(a) - multiset{a[0]}
  {
    assert a == [a[0]] + a[1..];
  }

  lemma DistinctTail(a: seq<Inst>)
    requires a != [] && DistinctNumbers(a)
    ensures DistinctNumbers(a[1..])
  {}

  lemma SameLength(a: seq<Inst>, b: seq<Inst>)
    requires multiset(a) == multiset(b)
    ensures |a| == |b|
  {
    assert |multiset(a)| == |a| && |multiset(b)| == |b|;
  }

  lemma SameFirst(a: seq<Inst>, b: seq<Inst>)
    requires a != [] && b != [] && Sorted(a) && Sorted(b) && multiset(a) == multiset(b) && DistinctNumbers(a)
    ensures a[0] == b[0]
  {
    assert a[0] in multiset(b) && b[0] in multiset(a);
    var i :| 0 <= i < |b| && b[i] == a[0];
    var j :| 0 <= j < |a| && a[j] == b[0];
    assert b[0].sn <= b[i].sn && a[0].sn <= a[j].sn;
  }

  /** The promise of the comment on the queue: a trace whose instructions are at
      most min places late comes out sorted. */
  lemma NearlySortedComesOutSorted(s: seq<Inst>, min: nat, max: nat)
    requires AtMostLate(s, min)
    ensures Sorted(Output(s, min, max))
    ensures DistinctNumbers(s) ==> Output(s, min, max) == Sort(s)
  {
    hide Output, Sort, DistinctNumbers;
    LatenessSuffices(s, min, max);
    SortedIffOnTime(s, min, max);
    OutputConserves(s, min, max);
    if DistinctNumbers(s) {
      DistinctSort(s);
      SortedUnique(Sort(s), Output(s, min, max));
    }
  }

  /** Distinctness is a matter of the multiset of instructions. */
  lemma DistinctSort(s: seq<Inst>)
    requires DistinctNumbers(s)
    ensures DistinctNumbers(Sort(s))
  {
    hide Sort;
    var r := Sort(s);
    forall i, j | 0 <= i < j < |r| ensures r[i].sn != r[j].sn {
      if r[i].sn == r[j].sn {
        assert r[i] in multiset(s) && r[j] in multiset(s);
        var k :| 0 <= k < |s| && s[k] == r[i];
        var l :| 0 <= l < |s| && s[l] == r[j];
        assert k == l;
        TwiceInMultiset(r, i, j);
        OnceInMultiset(s, k);
      }
    }
  }

  lemma TwiceInMultiset(r: seq<Inst>, i: nat, j: nat)
    requires i < j < |r| && r[i] == r[j]
    ensures multiset(r)[r[i]] >= 2
  {
    assert r == r[..j] + [r[j]] + r[j + 1..];
    assert r[i] in r[..j];
  }

  lemma OnceInMultiset(s: seq<Inst>, k: nat)
    requires k < |s| && DistinctNumbers(s)
    ensures multiset(s)[s[k]] == 1
  {
    assert s == s[..k] + [s[k]] + s[k + 1..];
    assert s[k] !in s[..k] && s[k] !in s[k + 1..];
  }

  /** The queue holds as many instructions as the larger threshold. */
  function Capacity(min: nat, max: nat): nat {
    if max < min then min else max
  }

  /** A trace in order but for one number, which comes min + 1 places late, just after
      the queue has overflowed for the first time. */
  function LateBy(min: nat, max: nat): (s: seq<Inst>)
    ensures |s| == Capacity(min, max) + 2
  {
    var n := Capacity(min, max);
    seq(n + 2, i requires 0 <= i < n + 2 => Inst(if i < n - min then i else if i <= n then i + 1 else n - min, 0, 0, ""))
  }

  lemma {:induction false} CountUpTo(q: seq<Inst>, v: nat)
    requires forall i :: 0 <= i < |q| ==> q[i].sn == i
    ensures CountAtMost(q, v) == if v < |q| then v + 1 else |q|
    decreases |q|
  {
    if q != [] {
      var n := |q| - 1;
      assert q == q[..n] + [q[n]];
      CountUpTo(q[..n], v);
      CountConcat(q[..n], [q[n]], v);
    }
  }

  /** The first numbers in order, then only numbers that leave out the next. */
  ghost predicate LeavesGap(front: seq<Inst>, back: seq<Inst>) {
    (forall i :: 0 <= i < |front| ==> front[i].sn == i) && (forall i :: 0 <= i < |back| ==> back[i].sn > |front|)
  }

  lemma LateByGap(min: nat, max: nat)
    ensures var n := Capacity(min, max); LeavesGap(LateBy(min, max)[..n - min], LateBy(min, max)[n - min..n + 1])
  {}

  lemma CountFront(front: seq<Inst>, back: seq<Inst>, v: nat)
    requires LeavesGap(front, back) && v <= |front|
    ensures CountAtMost(front + back, v) == if v < |front| then v + 1 else v
  {
    hide CountAtMost;
    CountConcat(front, back, v);
    CountUpTo(front, v);
    CountNone(back, v);
  }

  /** The numbers before the late one arrive in order, and the rest is above it. */
  lemma CountLate(min: nat, max: nat, v: nat)
    requires v <= Capacity(min, max) - min
    ensures CountAtMost(LateBy(min, max)[..Capacity(min, max) + 1], v) ==
      if v < Capacity(min, max) - min then v + 1 else v
  {
    hide CountAtMost, LateBy, LeavesGap;
    var n, s := Capacity(min, max), LateBy(min, max);
    LateByGap(min, max);
    assert s[..n + 1] == s[..n - min] + s[n - min..n + 1];
    CountFront(s[..n - min], s[n - min..n + 1], v);
  }

  lemma LateByLateness(min: nat, max: nat)
    ensures AtMostLate(LateBy(min, max), min + 1)
  {
    hide CountAtMost;
    var n, s := Capacity(min, max), LateBy(min, max);
    forall j | 0 <= j < |s| ensures j <= CountBelow(s, s[j].sn) + min + 1 {
      var v := if s[j].sn <= n - min then s[j].sn else n - min + 1;
      if v > 0 {
        assert s == s[..n + 1] + s[n + 1..];
        CountConcat(s[..n + 1], s[n + 1..], v - 1);
        CountLate(min, max, v - 1);
        CountMonotone(s, v - 1, s[j].sn - 1);
      }
    }
  }

  /** One place more is too much: whatever the thresholds, a trace with a single
      instruction min + 1 places late comes out of order. */
  lemma OnePlaceTooLate(min: nat, max: nat)
    ensures exists s :: AtMostLate(s, min + 1) && DistinctNumbers(s) && !Sorted(Output(s, min, max))
  {
    hide AtMostLate, Sorted, Output, CountAtMost;
    var n, s := Capacity(min, max), LateBy(min, max);
    LateByLateness(min, max);
    assert DistinctNumbers(s);
    CountLate(min, max, n - min);
    DrainedAtOverflow(min, max);
    LateMakesDisorder(s, n + 1, n + 1, min, max);
  }

  lemma DrainedAtOverflow(min: nat, max: nat)
    ensures Drained(Capacity(min, max) + 1, min, max) == Capacity(min, max) + 1 - min
  {
    DrainedEarly(Capacity(min, max), min, max);
  }

  lemma {:induction false} DrainedEarly(t: nat, min: nat, max: nat)
    requires t <= Capacity(min, max)
    ensures Drained(t, min, max) == 0
  {
    if t > 0 { DrainedEarly(t - 1, min, max); }
  }
}
