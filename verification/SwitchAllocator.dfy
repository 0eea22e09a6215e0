/** The two-stage switch allocator of a garnet router (SwitchAllocator.cc).  In a
    cycle every virtual channel of every input port that has a flit ready, and an
    output VC or a credit for it, wants one output port.  Each input port picks one
    of its VCs and each output port one of the input ports that ask for it, both
    round robin. */
module SwitchAllocator {
  import opened Arith
  import opened Wrappers

  /** What VC v of input port i wants this cycle, as wants[i][v]. */
  type Wants = seq<seq<Option<nat>>>

  /** The round-robin pointers. */
  datatype State = State(invc: seq<nat>, inport: seq<nat>)

  predicate Valid(s: State, vcs: nat) {
    && (forall i :: 0 <= i < |s.invc| ==> s.invc[i] < vcs)
    && (forall o :: 0 <= o < |s.inport| ==> s.inport[o] < |s.invc|)
  }

  predicate Fits(w: Wants, s: State, vcs: nat) {
    && |w| == |s.invc|
    && (forall i :: 0 <= i < |w| ==> |w[i]| == vcs)
    && (forall i, v :: 0 <= i < |w| && 0 <= v < |w[i]| && w[i][v].Some? ==> w[i][v].value < |s.inport|)
  }

  // ----- round robin

  function Succ(p: nat, n: nat): nat {
    if p + 1 >= n then 0 else p + 1
  }

  /** Places from p forward to i, around the end. */
  function Dist(p: nat, i: nat, n: nat): nat
    requires p < n && i < n
  {
    if i >= p then i - p else i + n - p
  }

  /** The first place from p on, looking at k of them, that is marked. */
  function FirstFrom(marks: seq<bool>, p: nat, k: nat): (r: Option<nat>)
    requires p < |marks|
    ensures r.Some? ==> r.value < |marks| && marks[r.value]
    decreases k
  {
    if k == 0 then None else if marks[p] then Some(p) else FirstFrom(marks, Succ(p, |marks|), k - 1)
  }

  lemma DistStep(p: nat, i: nat, n: nat)
    requires p < n && i < n
    ensures p != i ==> Dist(p, i, n) == 1 + Dist(Succ(p, n), i, n)
    ensures Dist(p, i, n) < n && (Dist(p, i, n) == 0 <==> p == i)
  {}

  lemma {:induction false} FirstFromNearest(marks: seq<bool>, p: nat, k: nat, i: nat)
    requires p < |marks| && i < |marks| && marks[i] && Dist(p, i, |marks|) < k
    ensures var r := FirstFrom(marks, p, k);
      r.Some? && Dist(p, r.value, |marks|) <= Dist(p, i, |marks|)
    decreases k
  {
    hide Dist;
    var n := |marks|;
    DistStep(p, i, n);
    DistStep(p, p, n);
    if !marks[p] {
      FirstFromNearest(marks, Succ(p, n), k - 1, i);
      DistStep(p, FirstFrom(marks, p, k).value, n);
    }
  }

  /** The arbiter's choice: the marked place nearest from the pointer. */
  function Pick(marks: seq<bool>, p: nat): (r: Option<nat>)
    requires p < |marks|
    ensures r.Some? ==> r.value < |marks| && marks[r.value]
  {
    FirstFrom(marks, p, |marks|)
  }

  lemma PickNearest(marks: seq<bool>, p: nat, i: nat)
    requires p < |marks| && i < |marks| && marks[i]
    ensures var r := Pick(marks, p);
      r.Some? && Dist(p, r.value, |marks|) <= Dist(p, i, |marks|)
  {
    DistStep(p, i, |marks|);
    FirstFromNearest(marks, p, |marks|, i);
  }

  lemma DistAfter(p: nat, j: nat, i: nat, n: nat)
    requires p < n && j < n && i < n && j != i && Dist(p, j, n) <= Dist(p, i, n)
    ensures Dist(Succ(j, n), i, n) < Dist(p, i, n) && Dist(p, j, n) < Dist(p, i, n)
  {}

  // ----- one cycle

  function WantMarks(row: seq<Option<nat>>): (m: seq<bool>)
    ensures |m| == |row|
  {
    seq(|row|, v requires 0 <= v < |row| => row[v].Some?)
  }

  /** The VC chosen at input port i. */
  function Winner(s: State, w: Wants, i: nat, vcs: nat): (r: Option<nat>)
    requires Valid(s, vcs) && Fits(w, s, vcs) && i < |s.invc|
    ensures r.Some? ==> r.value < vcs && w[i][r.value].Some?
  {
    Pick(WantMarks(w[i]), s.invc[i])
  }

  /** The output port input port i asks for. */
  function Request(s: State, w: Wants, i: nat, vcs: nat): (r: Option<nat>)
    requires Valid(s, vcs) && Fits(w, s, vcs) && i < |s.invc|
    ensures r.Some? ==> r.value < |s.inport|
  {
    if Winner(s, w, i, vcs).Some? then w[i][Winner(s, w, i, vcs).value] else None
  }

  function Requests(s: State, w: Wants, vcs: nat): (r: seq<Option<nat>>)
    requires Valid(s, vcs) && Fits(w, s, vcs)
    ensures |r| == |s.invc|
  {
    seq(|s.invc|, i requires 0 <= i < |s.invc| => Request(s, w, i, vcs))
  }

  function AskMarks(requests: seq<Option<nat>>, o: nat): (m: seq<bool>)
    ensures |m| == |requests|
  {
    seq(|requests|, i requires 0 <= i < |requests| => requests[i] == Some(o))
  }

  /** The input port that gets output port o. */
  function Granted(s: State, w: Wants, o: nat, vcs: nat): (r: Option<nat>)
    requires Valid(s, vcs) && Fits(w, s, vcs) && o < |s.inport|
    ensures r.Some? ==> r.value < |s.invc| && Request(s, w, r.value, vcs) == Some(o)
  {
    Pick(AskMarks(Requests(s, w, vcs), o), s.inport[o])
  }

  /** Input port i gets the port it asks for. */
  predicate Served(s: State, w: Wants, i: nat, vcs: nat)
    requires Valid(s, vcs) && Fits(w, s, vcs) && i < |s.invc|
  {
    Request(s, w, i, vcs).Some? && Granted(s, w, Request(s, w, i, vcs).value, vcs) == Some(i)
  }

  function NextInvc(s: State, w: Wants, i: nat, vcs: nat): (p: nat)
    requires Valid(s, vcs) && Fits(w, s, vcs) && i < |s.invc|
    ensures p < vcs
  {
    if Served(s, w, i, vcs) then Succ(Winner(s, w, i, vcs).value, vcs) else s.invc[i]
  }

  function NextInport(s: State, w: Wants, o: nat, vcs: nat): (p: nat)
    requires Valid(s, vcs) && Fits(w, s, vcs) && o < |s.inport|
    ensures p < |s.invc|
  {
    if Granted(s, w, o, vcs).Some? then Succ(Granted(s, w, o, vcs).value, |s.invc|) else s.inport[o]
  }

  /** The pointers after the cycle: only what was granted moves them. */
  function Next(s: State, w: Wants, vcs: nat): (r: State)
    requires Valid(s, vcs) && Fits(w, s, vcs)
    ensures Valid(r, vcs) && |r.invc| == |s.invc| && |r.inport| == |s.inport|
  {
    State(seq(|s.invc|, i requires 0 <= i < |s.invc| => NextInvc(s, w, i, vcs)),
          seq(|s.inport|, o requires 0 <= o < |s.inport| => NextInport(s, w, o, vcs)))
  }

  /** The grants are a matching of wants: an input port gets at most one output
      port, and it is one that the chosen VC wants. */
  lemma GrantsMatch(s: State, w: Wants, vcs: nat, o: nat, o': nat)
    requires Valid(s, vcs) && Fits(w, s, vcs) && o < |s.inport| && o' < |s.inport|
    requires Granted(s, w, o, vcs).Some?
    ensures var i := Granted(s, w, o, vcs).value;
      && Winner(s, w, i, vcs).Some? && w[i][Winner(s, w, i, vcs).value] == Some(o)
      && (Granted(s, w, o', vcs) == Some(i) ==> o == o')
  {
    hide Winner;
  }

  /** No port idles while it is asked for, and a port with a ready VC asks. */
  lemma WorkConserving(s: State, w: Wants, vcs: nat, i: nat, v: nat)
    requires Valid(s, vcs) && Fits(w, s, vcs) && i < |s.invc| && v < vcs && w[i][v].Some?
    ensures Request(s, w, i, vcs).Some? && Granted(s, w, Request(s, w, i, vcs).value, vcs).Some?
  {
    hide Pick;
    PickNearest(WantMarks(w[i]), s.invc[i], v);
    var o := Request(s, w, i, vcs).value;
    PickNearest(AskMarks(Requests(s, w, vcs), o), s.inport[o], i);
  }

  /** The pointers of a new allocator. */
  function Init(inports: nat, outports: nat): (s: State)
    ensures |s.invc| == inports && |s.inport| == outports
  {
    State(seq(inports, i => 0), seq(outports, o => 0))
  }

  // ----- output VCs

  /** The first idle VC from base on, among k of them. */
  function FreeFrom(idle: seq<bool>, base: nat, k: nat): (r: Option<nat>)
    requires base + k <= |idle|
    ensures r.Some? ==> base <= r.value < base + k && idle[r.value]
    decreases k
  {
    if k == 0 then None else if idle[base] then Some(base) else FreeFrom(idle, base + 1, k - 1)
  }

  /** The first VC of v's virtual network. */
  function VcBase(v: nat, perVnet: nat, vcs: nat): (b: nat)
    requires perVnet > 0 && vcs % perVnet == 0 && v < vcs
    ensures b <= v < b + perVnet <= vcs
  {
    VnetFits(v, perVnet, vcs);
    v / perVnet * perVnet
  }

  lemma VnetFits(v: nat, per: nat, vcs: nat)
    requires per > 0 && vcs % per == 0 && v < vcs
    ensures v / per * per <= v < v / per * per + per <= vcs
  {
    var q, n := v / per, vcs / per;
    assert v == per * q + v % per && vcs == per * n;
    assert q < n by {
      if n <= q { TimesMonotone(per, n, q); }
    }
    TimesMonotone(per, q + 1, n);
    assert per * (q + 1) == per * q + per;
  }

  lemma TimesMonotone(k: nat, m: nat, n: nat)
    requires m <= n
    ensures k * m <= k * n
  {
    assert k * (n - m) >= 0;
    assert k * (n - m) == k * n - k * m;
  }

  /** The output VC a head flit in VC v takes: one of its virtual network. */
  function FreeVc(idle: seq<bool>, v: nat, perVnet: nat): (r: Option<nat>)
    requires perVnet > 0 && |idle| % perVnet == 0 && v < |idle|
    ensures r.Some? ==> r.value < |idle| && idle[r.value]
  {
    FreeFrom(idle, VcBase(v, perVnet, |idle|), perVnet)
  }

  ghost predicate Sized(rows: seq<seq<bool>>, n: nat, vcs: nat) {
    |rows| == n && forall i :: 0 <= i < n ==> |rows[i]| == vcs
  }

  /** What send_allowed has checked: a VC that wants output port o and still needs an
      output VC there has one to choose. */
  ghost predicate Allowed(w: Wants, needs: seq<seq<bool>>, idle: seq<seq<bool>>, s: State, vcs: nat, perVnet: nat)
    requires Fits(w, s, vcs) && Sized(needs, |s.invc|, vcs) && Sized(idle, |s.inport|, vcs)
    requires perVnet > 0 && vcs % perVnet == 0
  {
    forall i, v :: 0 <= i < |w| && 0 <= v < vcs && w[i][v].Some? && needs[i][v] ==>
      FreeVc(idle[w[i][v].value], v, perVnet).Some?
  }

  /** The VCs of output port o after the cycle. */
  function NextIdle(s: State, w: Wants, needs: seq<seq<bool>>, idle: seq<bool>, o: nat, vcs: nat, perVnet: nat): (r: seq<bool>)
    requires Valid(s, vcs) && Fits(w, s, vcs) && Sized(needs, |s.invc|, vcs) && o < |s.inport|
    requires perVnet > 0 && vcs % perVnet == 0 && |idle| == vcs
    ensures |r| == vcs
  {
    if Granted(s, w, o, vcs).None? then idle else
      var i := Granted(s, w, o, vcs).value;
      var v := Winner(s, w, i, vcs).value;
      if needs[i][v] && FreeVc(idle, v, perVnet).Some? then idle[FreeVc(idle, v, perVnet).value := false] else idle
  }

  // ----- the allocator object

  class Allocator {
    const vcs: nat
    var roundRobinInvc: seq<nat>
    var roundRobinInport: seq<nat>
    var portRequests: seq<Option<nat>>
    var vcWinners: seq<Option<nat>>
    var idle: seq<seq<bool>> // of the output units
    const perVnet: nat

    constructor (inports: nat, outports: nat, vcs: nat, perVnet: nat)
      ensures this.vcs == vcs && this.perVnet == perVnet && Pointers() == Init(inports, outports)
      ensures portRequests == seq(inports, i => None) && |vcWinners| == inports
      ensures idle == seq(outports, o => seq(vcs, v => true))
    {
      this.vcs := vcs;
      this.perVnet := perVnet;
      idle := seq(outports, o => seq(vcs, v => true));
      roundRobinInvc := seq(inports, i => 0);
      roundRobinInport := seq(outports, o => 0);
      portRequests := seq(inports, i => None);
      vcWinners := seq(inports, i => None);
    }

    function Pointers(): State
      reads this
    {
      State(roundRobinInvc, roundRobinInport)
    }

    ghost predicate Ready(w: Wants)
      reads this
    {
      && Valid(Pointers(), vcs) && Fits(w, Pointers(), vcs)
      && |portRequests| == |vcWinners| == |roundRobinInvc|
      && forall i :: 0 <= i < |portRequests| ==> portRequests[i] == None
    }

    /** SA-I. */
    method ArbitrateInports(w: Wants)
      requires Ready(w)
      modifies this`portRequests, this`vcWinners
      ensures portRequests == Requests(Pointers(), w, vcs) && |vcWinners| == |portRequests|
      ensures forall i :: 0 <= i < |vcWinners| && portRequests[i].Some? ==> vcWinners[i] == Winner(Pointers(), w, i, vcs)
    {
      hide Pick;
      var s := Pointers();
      for inport := 0 to |roundRobinInvc|
        invariant |portRequests| == |vcWinners| == |roundRobinInvc|
        invariant forall i :: 0 <= i < inport ==> portRequests[i] == Request(s, w, i, vcs)
        invariant forall i :: 0 <= i < inport && portRequests[i].Some? ==> vcWinners[i] == Winner(s, w, i, vcs)
        invariant forall i :: inport <= i < |portRequests| ==> portRequests[i] == None
      {
        var invc := Scan(WantMarks(w[inport]), roundRobinInvc[inport]);
        if invc.Some? {
          portRequests := portRequests[inport := w[inport][invc.value]];
          vcWinners := vcWinners[inport := invc];
        }
      }
    }

    /** vc_allocate: its assertion is the precondition. */
    method VcAllocate(outport: nat, invc: nat) returns (outvc: nat)
      requires perVnet > 0 && vcs % perVnet == 0 && outport < |idle| && |idle[outport]| == vcs && invc < vcs
      requires FreeVc(idle[outport], invc, perVnet).Some?
      modifies this`idle
      ensures Some(outvc) == old(FreeVc(idle[outport], invc, perVnet))
      ensures idle == old(idle[outport := idle[outport][outvc := false]])
    {
      var free := SelectFreeVc(idle[outport], invc, perVnet);
      assert free.Some?;
      outvc := free.value;
      idle := idle[outport := idle[outport][outvc := false]];
    }

    /** Output port outport is given to inport. */
    method Grant(outport: nat, inport: nat, needs: seq<seq<bool>>, ghost s: State, ghost w: Wants)
      requires Valid(s, vcs) && Fits(w, s, vcs) && perVnet > 0 && vcs % perVnet == 0
      requires |portRequests| == |vcWinners| == |roundRobinInvc| == |s.invc| && outport < |s.inport| == |roundRobinInport|
      requires Sized(needs, |s.invc|, vcs) && |idle| == |s.inport| && |idle[outport]| == vcs
      requires Granted(s, w, outport, vcs) == Some(inport) && vcWinners[inport] == Winner(s, w, inport, vcs)
      requires needs[inport][vcWinners[inport].value] ==> FreeVc(idle[outport], vcWinners[inport].value, perVnet).Some?
      requires Untouched(s, w, outport)
      modifies this`portRequests, this`roundRobinInvc, this`roundRobinInport, this`idle
      ensures |portRequests| == |roundRobinInvc| == |s.invc| && Untouched(s, w, outport + 1)
      ensures roundRobinInport == old(roundRobinInport)[outport := NextInport(s, w, outport, vcs)]
      ensures idle == old(idle)[outport := NextIdle(s, w, needs, old(idle)[outport], outport, vcs, perVnet)]
    {
      hide Pick, Winner, FreeVc;
      var invc := vcWinners[inport].value;
      if needs[inport][invc] {
        var outvc := VcAllocate(outport, invc);
      }
      portRequests := portRequests[inport := None];
      roundRobinInport := roundRobinInport[outport := Succ(inport, |roundRobinInvc|)];
      roundRobinInvc := roundRobinInvc[inport := Succ(invc, vcs)];
    }

    /** SA-II: grants[o] is the input port that output port o is given to.  A winner
        that needs an output VC always finds one. */
    method ArbitrateOutports(ghost w: Wants, needs: seq<seq<bool>>) returns (grants: seq<Option<nat>>)
      requires Valid(Pointers(), vcs) && Fits(w, Pointers(), vcs)
      requires portRequests == Requests(Pointers(), w, vcs) && |vcWinners| == |portRequests|
      requires forall i :: 0 <= i < |vcWinners| && portRequests[i].Some? ==> vcWinners[i] == Winner(Pointers(), w, i, vcs)
      requires perVnet > 0 && vcs % perVnet == 0
      requires Sized(needs, |roundRobinInvc|, vcs) && Sized(idle, |roundRobinInport|, vcs)
      requires Allowed(w, needs, idle, Pointers(), vcs, perVnet)
      modifies this`portRequests, this`roundRobinInvc, this`roundRobinInport, this`idle
      ensures Pointers() == Next(old(Pointers()), w, vcs)
      ensures |grants| == |roundRobinInport| && |portRequests| == |vcWinners|
      ensures forall o :: 0 <= o < |grants| ==> grants[o] == Granted(old(Pointers()), w, o, vcs)
      ensures |idle| == |grants|
      ensures forall o :: 0 <= o < |idle| ==> idle[o] == NextIdle(old(Pointers()), w, needs, old(idle)[o], o, vcs, perVnet)
    {
      hide Pick, Winner, FreeVc, Succ;
      ghost var s, was := Pointers(), idle;
      grants := [];
      for outport := 0 to |roundRobinInport|
        invariant |grants| == outport && |roundRobinInport| == |s.inport| == |idle|
        invariant |portRequests| == |vcWinners| == |roundRobinInvc| == |s.invc|
        invariant forall o :: 0 <= o < outport ==> grants[o] == Granted(s, w, o, vcs) && roundRobinInport[o] == NextInport(s, w, o, vcs)
        invariant forall o :: outport <= o < |s.inport| ==> roundRobinInport[o] == s.inport[o]
        invariant Untouched(s, w, outport)
        invariant forall o :: 0 <= o < outport ==> idle[o] == NextIdle(s, w, needs, was[o], o, vcs, perVnet)
        invariant forall o :: outport <= o < |idle| ==> idle[o] == was[o]
      {
        SameMarks(s, w, vcs, portRequests, outport);
        var inport := Scan(AskMarks(portRequests, outport), roundRobinInport[outport]);
        assert inport == Granted(s, w, outport, vcs);
        if inport.Some? {
          Grant(outport, inport.value, needs, s, w);
        }
        grants := grants + [inport];
      }
    }

    /** The input ports after the output ports below o have decided. */
    ghost predicate Untouched(s: State, w: Wants, o: nat)
      requires Valid(s, vcs) && Fits(w, s, vcs) && |portRequests| == |roundRobinInvc| == |s.invc|
      reads this
    {
      forall i :: 0 <= i < |s.invc| ==>
        if Request(s, w, i, vcs).Some? && Request(s, w, i, vcs).value < o
        then roundRobinInvc[i] == NextInvc(s, w, i, vcs) && (portRequests[i] == Request(s, w, i, vcs) || portRequests[i] == None)
        else roundRobinInvc[i] == s.invc[i] && portRequests[i] == Request(s, w, i, vcs)
    }

    /** wakeup: both stages, then the requests are cleared. */
    method Wakeup(w: Wants, needs: seq<seq<bool>>) returns (grants: seq<Option<nat>>)
      requires Ready(w) && perVnet > 0 && vcs % perVnet == 0
      requires Sized(needs, |roundRobinInvc|, vcs) && Sized(idle, |roundRobinInport|, vcs)
      requires Allowed(w, needs, idle, Pointers(), vcs, perVnet)
      modifies this
      ensures Pointers() == Next(old(Pointers()), w, vcs)
      ensures |grants| == |roundRobinInport| == |idle|
      ensures forall o :: 0 <= o < |grants| ==> grants[o] == Granted(old(Pointers()), w, o, vcs)
      ensures forall o :: 0 <= o < |idle| ==> idle[o] == NextIdle(old(Pointers()), w, needs, old(idle)[o], o, vcs, perVnet)
      ensures portRequests == seq(|roundRobinInvc|, i => None) && |vcWinners| == |roundRobinInvc|
    {
      hide Next, Granted, Winner, Requests, NextIdle, Allowed;
      ArbitrateInports(w);
      grants := ArbitrateOutports(w, needs);
      portRequests := seq(|portRequests|, i => None);
    }
  }

  /** select_free_vc: the scan for an idle VC. */
  method SelectFreeVc(idle: seq<bool>, v: nat, perVnet: nat) returns (r: Option<nat>)
    requires perVnet > 0 && |idle| % perVnet == 0 && v < |idle|
    ensures r == FreeVc(idle, v, perVnet)
  {
    hide VcBase;
    var base := VcBase(v, perVnet, |idle|);
    var vc := base;
    while vc < base + perVnet
      invariant base <= vc <= base + perVnet
      invariant FreeFrom(idle, vc, base + perVnet - vc) == FreeVc(idle, v, perVnet)
    {
      if idle[vc] {
        return Some(vc);
      }
      vc := vc + 1;
    }
    return None;
  }

  /** Requests already served do not ask for output port o. */
  lemma SameMarks(s: State, w: Wants, vcs: nat, now: seq<Option<nat>>, o: nat)
    requires Valid(s, vcs) && Fits(w, s, vcs) && |now| == |s.invc|
    requires forall i :: 0 <= i < |s.invc| ==>
      if Request(s, w, i, vcs).Some? && Request(s, w, i, vcs).value < o
      then now[i] == Request(s, w, i, vcs) || now[i] == None
      else now[i] == Request(s, w, i, vcs)
    ensures AskMarks(now, o) == AskMarks(Requests(s, w, vcs), o)
  {
    hide Request;
  }

  /** The scanning loop of both stages. */
  method Scan(marks: seq<bool>, start: nat) returns (r: Option<nat>)
    requires start < |marks|
    ensures r == Pick(marks, start)
  {
    var p: nat := start;
    for iter := 0 to |marks|
      invariant 0 <= p < |marks|
      invariant FirstFrom(marks, p, |marks| - iter) == Pick(marks, start)
    {
      if marks[p] {
        return Some(p);
      }
      p := p + 1;
      if p >= |marks| {
        p := 0;
      }
    }
    return None;
  }
}
