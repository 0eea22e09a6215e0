/** Which routers can starve a VC, over the runs the router's own rules allow: a flit
    at the front of a VC stays until it is sent, a head flit asks only while its
    virtual network has an idle output VC, and output VCs are taken and freed as
    packets pass. */
module SwitchStarvation {
  import opened Wrappers
  import opened SwitchAllocator
  import opened SwitchFairness

  // ----- what a router can be asked

  /** The output port and output VC a packet holds. */
  datatype Held = Held(port: nat, vc: nat)

  /** The router before a cycle: for every input VC the output port of the flit at its
      front, if there is one ready (and, for a packet that holds an output VC, a
      credit for it), and what the packet holds; and the idle output VCs. */
  datatype Cycle = Cycle(front: seq<seq<Option<nat>>>, held: seq<seq<Option<Held>>>, idle: seq<seq<bool>>)

  ghost predicate Shaped(c: Cycle, inports: nat, outports: nat, vcs: nat) {
    && |c.front| == |c.held| == inports && Sized(c.idle, outports, vcs)
    && (forall i :: 0 <= i < inports ==> |c.front[i]| == |c.held[i]| == vcs)
    && (forall i, v :: 0 <= i < inports && 0 <= v < vcs ==>
          && (c.front[i][v].Some? ==> c.front[i][v].value < outports)
          && (c.held[i][v].Some? ==> c.held[i][v].value.port < outports && c.held[i][v].value.vc < vcs)
          && (c.front[i][v].Some? && c.held[i][v].Some? ==> c.front[i][v].value == c.held[i][v].value.port))
  }

  /** send_allowed: a packet without an output VC asks only if it can get one. */
  function WantAt(c: Cycle, i: nat, v: nat, outports: nat, vcs: nat, perVnet: nat): (o: Option<nat>)
    requires Shaped(c, |c.front|, outports, vcs) && i < |c.front| && v < vcs && perVnet > 0 && vcs % perVnet == 0
    ensures o.Some? ==> o.value < outports
  {
    if c.front[i][v].None? then None
    else if c.held[i][v].Some? || FreeVc(c.idle[c.front[i][v].value], v, perVnet).Some? then c.front[i][v]
    else None
  }

  function WantRow(c: Cycle, i: nat, outports: nat, vcs: nat, perVnet: nat): (r: seq<Option<nat>>)
    requires Shaped(c, |c.front|, outports, vcs) && i < |c.front| && perVnet > 0 && vcs % perVnet == 0
    ensures |r| == vcs
  {
    seq(vcs, v requires 0 <= v < vcs => WantAt(c, i, v, outports, vcs, perVnet))
  }

  function WantsOf(c: Cycle, outports: nat, vcs: nat, perVnet: nat): (w: Wants)
    requires Shaped(c, |c.front|, outports, vcs) && perVnet > 0 && vcs % perVnet == 0
    ensures |w| == |c.front|
  {
    seq(|c.front|, i requires 0 <= i < |c.front| => WantRow(c, i, outports, vcs, perVnet))
  }

  function NeedsRow(row: seq<Option<Held>>): (r: seq<bool>)
    ensures |r| == |row|
  {
    seq(|row|, v requires 0 <= v < |row| => row[v].None?)
  }

  function NeedsOf(c: Cycle): (r: seq<seq<bool>>)
    ensures |r| == |c.held|
  {
    seq(|c.held|, i requires 0 <= i < |c.held| => NeedsRow(c.held[i]))
  }

  lemma WantsFit(c: Cycle, s: State, vcs: nat, perVnet: nat)
    requires Shaped(c, |s.invc|, |s.inport|, vcs) && perVnet > 0 && vcs % perVnet == 0
    ensures Fits(WantsOf(c, |s.inport|, vcs, perVnet), s, vcs) && Sized(NeedsOf(c), |s.invc|, vcs)
    ensures Allowed(WantsOf(c, |s.inport|, vcs, perVnet), NeedsOf(c), c.idle, s, vcs, perVnet)
  {
    hide FreeVc;
  }

  /** The packet in VC v of port i after it is sent: it holds the output VC it had or
      took, or, if this was its tail, nothing. */
  ghost predicate HeldAfter(c: Cycle, c': Cycle, i: nat, v: nat, outports: nat, vcs: nat, perVnet: nat)
    requires Shaped(c, |c.front|, outports, vcs) && Shaped(c', |c.front|, outports, vcs)
    requires i < |c.front| && v < vcs && perVnet > 0 && vcs % perVnet == 0
  {
    && WantAt(c, i, v, outports, vcs, perVnet).Some?
    && var o := c.front[i][v].value;
       || c'.held[i][v].None?
       || c'.held[i][v] == if c.held[i][v].Some? then c.held[i][v] else Some(Held(o, FreeVc(c.idle[o], v, perVnet).value))
  }

  /** A flit that is not sent stays, and so does what its packet holds. */
  ghost predicate StaysAt(c: Cycle, c': Cycle, i: nat, v: nat)
    requires i < |c.front| == |c.held| && v < |c.front[i]| && v < |c.held[i]|
    requires i < |c'.front| == |c'.held| && v < |c'.front[i]| && v < |c'.held[i]|
  {
    c'.held[i][v] == c.held[i][v] && (c.front[i][v].Some? ==> c'.front[i][v] == c.front[i][v])
  }

  ghost predicate InputsFollow(s: State, w: Wants, c: Cycle, c': Cycle, vcs: nat, perVnet: nat)
    requires Valid(s, vcs) && Fits(w, s, vcs) && perVnet > 0 && vcs % perVnet == 0
    requires Shaped(c, |s.invc|, |s.inport|, vcs) && Shaped(c', |s.invc|, |s.inport|, vcs)
  {
    forall i, v :: 0 <= i < |s.invc| && 0 <= v < vcs ==>
      if Sends(s, w, i, v, vcs) then HeldAfter(c, c', i, v, |s.inport|, vcs, perVnet) else StaysAt(c, c', i, v)
  }

  /** An idle output VC stays idle unless taken; another may become idle. */
  ghost predicate OutputsFollow(s: State, w: Wants, c: Cycle, c': Cycle, vcs: nat, perVnet: nat)
    requires Valid(s, vcs) && Fits(w, s, vcs) && perVnet > 0 && vcs % perVnet == 0
    requires Sized(NeedsOf(c), |s.invc|, vcs) && Sized(c.idle, |s.inport|, vcs) && Sized(c'.idle, |s.inport|, vcs)
  {
    forall o, u :: 0 <= o < |s.inport| && 0 <= u < vcs && NextIdle(s, w, NeedsOf(c), c.idle[o], o, vcs, perVnet)[u] ==>
      c'.idle[o][u]
  }

  ghost predicate HeldAreBusy(c: Cycle, outports: nat, vcs: nat)
    requires Shaped(c, |c.front|, outports, vcs)
  {
    forall i, v :: 0 <= i < |c.held| && 0 <= v < vcs && c.held[i][v].Some? ==>
      !c.idle[c.held[i][v].value.port][c.held[i][v].value.vc]
  }

  /** The router one cycle later, with the pointers of the cycle given. */
  ghost predicate Follows(s: State, c: Cycle, c': Cycle, vcs: nat, perVnet: nat)
    requires Valid(s, vcs) && perVnet > 0 && vcs % perVnet == 0
    requires Shaped(c, |s.invc|, |s.inport|, vcs) && Shaped(c', |s.invc|, |s.inport|, vcs)
  {
    WantsFit(c, s, vcs, perVnet);
    var w := WantsOf(c, |s.inport|, vcs, perVnet);
    InputsFollow(s, w, c, c', vcs, perVnet) && OutputsFollow(s, w, c, c', vcs, perVnet) && HeldAreBusy(c', |s.inport|, vcs)
  }

  // ----- runs

  ghost predicate AllShaped(cs: seq<Cycle>, inports: nat, outports: nat, vcs: nat) {
    forall t :: 0 <= t < |cs| ==> Shaped(cs[t], inports, outports, vcs)
  }

  function AllWants(cs: seq<Cycle>, inports: nat, outports: nat, vcs: nat, perVnet: nat): (ws: seq<Wants>)
    requires AllShaped(cs, inports, outports, vcs) && perVnet > 0 && vcs % perVnet == 0
    ensures |ws| == |cs|
  {
    seq(|cs|, t requires 0 <= t < |cs| => WantsOf(cs[t], outports, vcs, perVnet))
  }

  lemma AllWantsFit(cs: seq<Cycle>, s: State, vcs: nat, perVnet: nat)
    requires AllShaped(cs, |s.invc|, |s.inport|, vcs) && perVnet > 0 && vcs % perVnet == 0
    ensures AllFit(AllWants(cs, |s.invc|, |s.inport|, vcs, perVnet), s, vcs)
  {
    hide WantsOf, Fits;
    forall t | 0 <= t < |cs| ensures Fits(WantsOf(cs[t], |s.inport|, vcs, perVnet), s, vcs) {
      WantsFit(cs[t], s, vcs, perVnet);
    }
  }

  /** An empty router. */
  ghost predicate Fresh(c: Cycle) {
    && (forall i, v :: 0 <= i < |c.held| && 0 <= v < |c.held[i]| ==> c.held[i][v].None?)
    && (forall o, u :: 0 <= o < |c.idle| && 0 <= u < |c.idle[o]| ==> c.idle[o][u])
  }

  /** A run of a new router by its rules. */
  ghost predicate Lawful(cs: seq<Cycle>, inports: nat, outports: nat, vcs: nat, perVnet: nat)
    requires perVnet > 0 && vcs % perVnet == 0
  {
    var s := Init(inports, outports);
    && Valid(s, vcs) && AllShaped(cs, inports, outports, vcs)
    && AllFit(AllWants(cs, inports, outports, vcs, perVnet), s, vcs)
    && (cs != [] ==> Fresh(cs[0]))
    && forall t :: 0 <= t < |cs| - 1 ==>
         Follows(After(s, AllWants(cs, inports, outports, vcs, perVnet), t, vcs), cs[t], cs[t + 1], vcs, perVnet)
  }

  /** What follows for the requests: one that is not granted is made again, unless its
      packet has no output VC and its virtual network has none left at that port. */
  lemma RequestsStay(s: State, c: Cycle, c': Cycle, i: nat, v: nat, vcs: nat, perVnet: nat)
    requires Valid(s, vcs) && perVnet > 0 && vcs % perVnet == 0 && i < |s.invc| && v < vcs
    requires Shaped(c, |s.invc|, |s.inport|, vcs) && Shaped(c', |s.invc|, |s.inport|, vcs)
    requires Follows(s, c, c', vcs, perVnet) && WantAt(c, i, v, |s.inport|, vcs, perVnet).Some?
    ensures Fits(WantsOf(c, |s.inport|, vcs, perVnet), s, vcs)
    ensures var o := WantAt(c, i, v, |s.inport|, vcs, perVnet);
      var again := WantAt(c', i, v, |s.inport|, vcs, perVnet);
      Sends(s, WantsOf(c, |s.inport|, vcs, perVnet), i, v, vcs) || again == o ||
      (again == None && c.held[i][v].None? && FreeVc(c'.idle[o.value], v, perVnet) == None)
  {
    hide Sends, FreeVc, WantsOf, OutputsFollow, HeldAreBusy;
    WantsFit(c, s, vcs, perVnet);
  }

  /** No two packets hold the same output VC. */
  ghost predicate OwnersDiffer(c: Cycle, vcs: nat)
    requires forall i :: 0 <= i < |c.held| ==> |c.held[i]| == vcs
  {
    forall i, v, j, u :: 0 <= i < |c.held| && 0 <= j < |c.held| && 0 <= v < vcs && 0 <= u < vcs ==>
      c.held[i][v].None? || c.held[i][v] != c.held[j][u] || (i == j && v == u)
  }

  lemma HoldsOrTakes(s: State, c: Cycle, c': Cycle, i: nat, v: nat, vcs: nat, perVnet: nat)
    requires Valid(s, vcs) && perVnet > 0 && vcs % perVnet == 0 && i < |s.invc| && v < vcs
    requires Shaped(c, |s.invc|, |s.inport|, vcs) && Shaped(c', |s.invc|, |s.inport|, vcs)
    requires Follows(s, c, c', vcs, perVnet) && c'.held[i][v].Some?
    ensures Fits(WantsOf(c, |s.inport|, vcs, perVnet), s, vcs)
    ensures var h := c'.held[i][v].value;
      || c.held[i][v] == c'.held[i][v]
      || (c.idle[h.port][h.vc] && Winner(s, WantsOf(c, |s.inport|, vcs, perVnet), i, vcs) == Some(v)
          && Granted(s, WantsOf(c, |s.inport|, vcs, perVnet), h.port, vcs) == Some(i))
  {
    hide FreeVc, OutputsFollow, HeldAreBusy, Winner, Granted;
    WantsFit(c, s, vcs, perVnet);
    var w := WantsOf(c, |s.inport|, vcs, perVnet);
    assert Sends(s, w, i, v, vcs) ==> HeldAfter(c, c', i, v, |s.inport|, vcs, perVnet) && w[i][v] == c.front[i][v];
    assert !Sends(s, w, i, v, vcs) ==> StaysAt(c, c', i, v);
  }

  lemma OwnersStayDifferent(s: State, c: Cycle, c': Cycle, vcs: nat, perVnet: nat)
    requires Valid(s, vcs) && perVnet > 0 && vcs % perVnet == 0
    requires Shaped(c, |s.invc|, |s.inport|, vcs) && Shaped(c', |s.invc|, |s.inport|, vcs)
    requires Follows(s, c, c', vcs, perVnet) && OwnersDiffer(c, vcs) && HeldAreBusy(c, |s.inport|, vcs)
    ensures OwnersDiffer(c', vcs)
  {
    hide Follows, WantsOf, Winner, Granted;
    forall i, v, j, u | 0 <= i < |s.invc| && 0 <= j < |s.invc| && 0 <= v < vcs && 0 <= u < vcs
      ensures c'.held[i][v].None? || c'.held[i][v] != c'.held[j][u] || (i == j && v == u)
    {
      if c'.held[i][v].Some? && c'.held[i][v] == c'.held[j][u] {
        HoldsOrTakes(s, c, c', i, v, vcs, perVnet);
        HoldsOrTakes(s, c, c', j, u, vcs, perVnet);
      }
    }
  }

  /** In no run do two packets hold the same output VC. */
  lemma {:induction false} RunsKeepOwnersApart(cs: seq<Cycle>, t: nat, inports: nat, outports: nat, vcs: nat, perVnet: nat)
    requires perVnet > 0 && vcs % perVnet == 0 && Lawful(cs, inports, outports, vcs, perVnet) && t < |cs|
    ensures OwnersDiffer(cs[t], vcs) && HeldAreBusy(cs[t], outports, vcs)
    decreases t
  {
    hide After, AllWants;
    if t > 0 {
      RunsKeepOwnersApart(cs, t - 1, inports, outports, vcs, perVnet);
      var s := After(Init(inports, outports), AllWants(cs, inports, outports, vcs, perVnet), t - 1, vcs);
      assert Follows(s, cs[t - 1], cs[t - 1 + 1], vcs, perVnet);
      OwnersStayDifferent(s, cs[t - 1], cs[t], vcs, perVnet);
    }
  }

  /** In such a run VC v of port i wants output o from cycle t on and is never sent. */
  ghost predicate Starves(cs: seq<Cycle>, t: nat, i: nat, v: nat, o: nat, inports: nat, outports: nat, vcs: nat, perVnet: nat)
    requires perVnet > 0 && vcs % perVnet == 0
  {
    && Lawful(cs, inports, outports, vcs, perVnet) && i < inports && v < vcs && o < outports
    && var ws := AllWants(cs, inports, outports, vcs, perVnet);
       forall u :: t <= u < |cs| ==> ws[u][i][v] == Some(o) && !Sent(Init(inports, outports), ws, u, i, v, vcs)
  }

  ghost predicate StarvesFor(len: nat, inports: nat, outports: nat, vcs: nat, perVnet: nat)
    requires perVnet > 0 && vcs % perVnet == 0
  {
    exists cs, t: nat, i: nat, v: nat, o: nat :: |cs| == t + len && Starves(cs, t, i, v, o, inports, outports, vcs, perVnet)
  }

  /** A VC can be kept waiting for as long as one likes. */
  ghost predicate Starvable(inports: nat, outports: nat, vcs: nat, perVnet: nat)
    requires perVnet > 0 && vcs % perVnet == 0
  {
    forall len: nat :: StarvesFor(len, inports, outports, vcs, perVnet)
  }

  // ----- a run that starves

  /** First packets of VC 1 of port 1 take all but one of the first output VCs of
      output port 1; the last of them is long.  Then even and odd cycles alternate. */
  datatype Phase = Start | Even | Odd

  function Prefix(perVnet: nat): (n: nat)
    ensures n >= 1
  {
    if perVnet <= 2 then 1 else perVnet - 1
  }

  function PhaseAt(t: nat, perVnet: nat): Phase {
    if t < Prefix(perVnet) then Start else if (t - Prefix(perVnet)) % 2 == 0 then Even else Odd
  }

  /** VC 1 of port 0 always wants output 0.  In even cycles its VC 0 comes first and
      loses output 1 to port 2, which takes the last output VC there; in odd cycles
      VC 1 loses output 0 to port 2.  Port 1 puts the pointers back. */
  function Cell(p: Phase, i: nat, v: nat): (o: Option<nat>)
    ensures o.Some? ==> o.value < 2
  {
    match p
    case Start => if i == 1 && v == 1 then Some(1) else None
    case Even =>
      if i == 0 && v == 0 then Some(1) else if i == 0 && v == 1 then Some(0)
      else if i == 1 && v == 0 then Some(0) else if i == 2 && v == 0 then Some(1) else None
    case Odd =>
      if i == 0 && v == 1 then Some(0) else if i == 1 && v == 1 then Some(1)
      else if i == 2 && v == 1 then Some(0) else None
  }

  function Row(p: Phase, i: nat, vcs: nat): (r: seq<Option<nat>>)
    ensures |r| == vcs
  {
    seq(vcs, v requires 0 <= v < vcs => Cell(p, i, v))
  }

  function Grid(p: Phase, inports: nat, vcs: nat): (w: Wants)
    ensures |w| == inports
  {
    seq(inports, i requires 0 <= i < inports => Row(p, i, vcs))
  }

  /** The flit that VC 0 of port 0 cannot send in odd cycles is still there. */
  function Front(p: Phase, i: nat, v: nat): (o: Option<nat>)
    ensures o.Some? ==> o.value < 2
  {
    if p.Odd? && i == 0 && v == 0 then Some(1) else Cell(p, i, v)
  }

  function Holds(p: Phase, i: nat, v: nat, perVnet: nat): (h: Option<Held>) {
    if !p.Start? && i == 1 && v == 1 then Some(Held(1, if perVnet == 1 then 1 else Prefix(perVnet) - 1)) else None
  }

  function Idle(t: nat, o: nat, u: nat, perVnet: nat): bool {
    var p := PhaseAt(t, perVnet);
    if o != 1 then true
    else if perVnet == 1 then p.Start? || (u != 1 && (p.Odd? ==> u != 0))
    else u >= (match p case Start => t case Even => perVnet - 1 case Odd => perVnet)
  }

  function IdleRow(t: nat, o: nat, vcs: nat, perVnet: nat): (r: seq<bool>)
    ensures |r| == vcs
  {
    seq(vcs, u requires 0 <= u < vcs => Idle(t, o, u, perVnet))
  }

  function CycleAt(t: nat, inports: nat, outports: nat, vcs: nat, perVnet: nat): (c: Cycle)
    ensures |c.front| == |c.held| == inports && |c.idle| == outports
    ensures forall i :: 0 <= i < inports ==> |c.front[i]| == |c.held[i]| == vcs
    ensures forall i, v :: 0 <= i < inports && 0 <= v < vcs ==>
      c.front[i][v] == Front(PhaseAt(t, perVnet), i, v) && c.held[i][v] == Holds(PhaseAt(t, perVnet), i, v, perVnet)
    ensures forall o :: 0 <= o < outports ==> c.idle[o] == IdleRow(t, o, vcs, perVnet)
  {
    var p := PhaseAt(t, perVnet);
    Cycle(seq(inports, i requires 0 <= i < inports => seq(vcs, v requires 0 <= v < vcs => Front(p, i, v))),
          seq(inports, i requires 0 <= i < inports => seq(vcs, v requires 0 <= v < vcs => Holds(p, i, v, perVnet))),
          seq(outports, o requires 0 <= o < outports => IdleRow(t, o, vcs, perVnet)))
  }

  /** A router with room for the schedule. */
  ghost predicate Large(s: State, vcs: nat) {
    Valid(s, vcs) && |s.invc| >= 3 && |s.inport| >= 2 && vcs >= 2
  }

  lemma {:induction false} FreeFromIs(idle: seq<bool>, base: nat, k: nat, f: nat)
    requires base <= f <= base + k <= |idle| && (f < base + k ==> idle[f])
    requires forall u :: base <= u < f ==> !idle[u]
    ensures FreeFrom(idle, base, k) == if f < base + k then Some(f) else None
    decreases k
  {
    if base < f {
      FreeFromIs(idle, base + 1, k - 1, f);
    }
  }

  /** With at least two VCs, the first two share a virtual network or have their own. */
  lemma Bases(vcs: nat, perVnet: nat)
    requires vcs >= 2 && perVnet > 0 && vcs % perVnet == 0
    ensures perVnet <= vcs
    ensures VcBase(0, perVnet, vcs) == 0 && VcBase(1, perVnet, vcs) == if perVnet == 1 then 1 else 0
  {
    assert 0 / perVnet == 0;
    if perVnet > 1 { assert 1 / perVnet == 0; }
    VnetFits(0, perVnet, vcs);
  }

  /** What a head flit finds in the cycles of the schedule. */
  lemma FreeAt(t: nat, o: nat, v: nat, vcs: nat, perVnet: nat)
    requires vcs >= 2 && perVnet > 0 && vcs % perVnet == 0 && v < 2
    ensures FreeVc(IdleRow(t, o, vcs, perVnet), v, perVnet) ==
      if o != 1 then Some(VcBase(v, perVnet, vcs))
      else match PhaseAt(t, perVnet)
      case Start => Some(if perVnet == 1 then v else t)
      case Even => if perVnet == 1 && v == 1 then None else Some(perVnet - 1)
      case Odd => None
  {
    hide FreeFrom, VcBase;
    Bases(vcs, perVnet);
    var row := IdleRow(t, o, vcs, perVnet);
    var base := VcBase(v, perVnet, vcs);
    var p := PhaseAt(t, perVnet);
    FreeFromIs(row, base, perVnet,
      if o != 1 then base
      else if p.Odd? || (p.Even? && perVnet == 1 && v == 1) then base + perVnet
      else if perVnet == 1 then v
      else if p.Start? then t else perVnet - 1);
  }

  lemma CycleShaped(t: nat, inports: nat, outports: nat, vcs: nat, perVnet: nat)
    requires outports >= 2 && vcs >= 2 && perVnet > 0 && vcs % perVnet == 0
    ensures Shaped(CycleAt(t, inports, outports, vcs, perVnet), inports, outports, vcs)
  {
    hide CycleAt, IdleRow;
    Bases(vcs, perVnet);
  }

  /** The requests of the schedule are the grids above. */
  lemma WantsAre(t: nat, inports: nat, outports: nat, vcs: nat, perVnet: nat)
    requires outports >= 2 && vcs >= 2 && perVnet > 0 && vcs % perVnet == 0
    ensures var c := CycleAt(t, inports, outports, vcs, perVnet);
      Shaped(c, inports, outports, vcs) && WantsOf(c, outports, vcs, perVnet) == Grid(PhaseAt(t, perVnet), inports, vcs)
  {
    hide CycleAt, IdleRow, FreeVc, PhaseAt, Shaped;
    CycleShaped(t, inports, outports, vcs, perVnet);
    var c := CycleAt(t, inports, outports, vcs, perVnet);
    forall i, v | 0 <= i < inports && 0 <= v < vcs
      ensures WantAt(c, i, v, outports, vcs, perVnet) == Cell(PhaseAt(t, perVnet), i, v)
    {
      if v < 2 {
        FreeAt(t, 0, v, vcs, perVnet);
        FreeAt(t, 1, v, vcs, perVnet);
      }
    }
    forall i | 0 <= i < inports ensures WantRow(c, i, outports, vcs, perVnet) == Row(PhaseAt(t, perVnet), i, vcs) {
    }
  }

  lemma GridFits(p: Phase, s: State, vcs: nat)
    requires Large(s, vcs)
    ensures Fits(Grid(p, |s.invc|, vcs), s, vcs)
  {
    hide Cell;
  }

  lemma PickOnly(marks: seq<bool>, p: nat, j: nat)
    requires p < |marks| && j < |marks| && forall k :: 0 <= k < |marks| ==> (marks[k] <==> k == j)
    ensures Pick(marks, p) == Some(j)
  {
    hide Pick;
    PickNearest(marks, p, j);
  }

  lemma PickHere(marks: seq<bool>, p: nat)
    requires p < |marks| && marks[p]
    ensures Pick(marks, p) == Some(p)
  {}

  lemma PickNone(marks: seq<bool>, p: nat)
    requires p < |marks| && forall k :: 0 <= k < |marks| ==> !marks[k]
    ensures Pick(marks, p) == None
  {}

  /** The VC that speaks for port i. */
  function Speaker(p: Phase, i: nat): Option<nat> {
    match p
    case Start => if i == 1 then Some(1) else None
    case Even => if i <= 2 then Some(0) else None
    case Odd => if i <= 2 then Some(1) else None
  }

  lemma Winners(p: Phase, s: State, i: nat, vcs: nat)
    requires Large(s, vcs) && s.invc[0] == 0 && i < |s.invc|
    ensures Fits(Grid(p, |s.invc|, vcs), s, vcs)
    ensures Winner(s, Grid(p, |s.invc|, vcs), i, vcs) == Speaker(p, i)
    ensures Request(s, Grid(p, |s.invc|, vcs), i, vcs) == if Speaker(p, i).Some? then Cell(p, i, Speaker(p, i).value) else None
  {
    hide Pick;
    GridFits(p, s, vcs);
    var marks := WantMarks(Grid(p, |s.invc|, vcs)[i]);
    match Speaker(p, i) {
      case None => PickNone(marks, s.invc[i]);
      case Some(v) => if i == 0 && p.Even? { PickHere(marks, 0); } else { PickOnly(marks, s.invc[i], v); }
    }
  }

  /** Where the pointers have to be. */
  ghost predicate Ready(p: Phase, s: State, vcs: nat) {
    Large(s, vcs) && s.invc[0] == 0 && (p.Even? ==> s.inport[1] == 2) && (p.Odd? ==> s.inport[0] == 2)
  }

  /** The port that gets output o. */
  function Taker(p: Phase, o: nat): Option<nat> {
    match p
    case Start => if o == 1 then Some(1) else None
    case Even => if o == 0 then Some(1) else if o == 1 then Some(2) else None
    case Odd => if o == 0 then Some(2) else if o == 1 then Some(1) else None
  }

  lemma Takers(p: Phase, s: State, o: nat, vcs: nat)
    requires Ready(p, s, vcs) && o < |s.inport|
    ensures Fits(Grid(p, |s.invc|, vcs), s, vcs)
    ensures Granted(s, Grid(p, |s.invc|, vcs), o, vcs) == Taker(p, o)
  {
    hide Grid, Winner, Pick, Request;
    var w := Grid(p, |s.invc|, vcs);
    GridFits(p, s, vcs);
    forall i | 0 <= i < |s.invc|
      ensures Request(s, w, i, vcs) == if Speaker(p, i).Some? then Cell(p, i, Speaker(p, i).value) else None
    {
      Winners(p, s, i, vcs);
    }
    var marks := AskMarks(Requests(s, w, vcs), o);
    match Taker(p, o) {
      case None => PickNone(marks, s.inport[o]);
      case Some(i) =>
        if (p.Even? && o == 1) || (p.Odd? && o == 0) { PickHere(marks, 2); } else { PickOnly(marks, s.inport[o], i); }
    }
  }

  lemma PointersAfter(p: Phase, s: State, vcs: nat)
    requires Ready(p, s, vcs)
    ensures Fits(Grid(p, |s.invc|, vcs), s, vcs)
    ensures Ready(if p.Even? then Odd else Even, Next(s, Grid(p, |s.invc|, vcs), vcs), vcs)
    ensures forall i, v :: 0 <= i < |s.invc| && 0 <= v < vcs ==>
      (Sends(s, Grid(p, |s.invc|, vcs), i, v, vcs) <==> i != 0 && Speaker(p, i) == Some(v))
  {
    hide Grid, Winner, Granted, Request;
    var w := Grid(p, |s.invc|, vcs);
    GridFits(p, s, vcs);
    Takers(p, s, 0, vcs);
    Takers(p, s, 1, vcs);
    forall i, v | 0 <= i < |s.invc| && 0 <= v < vcs
      ensures Sends(s, w, i, v, vcs) <==> i != 0 && Speaker(p, i) == Some(v)
    {
      Winners(p, s, i, vcs);
    }
    Winners(p, s, 0, vcs);
  }

  lemma InputFollows(t: nat, s: State, i: nat, v: nat, vcs: nat, perVnet: nat)
    requires Ready(PhaseAt(t, perVnet), s, vcs) && perVnet > 0 && vcs % perVnet == 0 && i < |s.invc| && v < vcs
    ensures var c, c' := CycleAt(t, |s.invc|, |s.inport|, vcs, perVnet), CycleAt(t + 1, |s.invc|, |s.inport|, vcs, perVnet);
      && Shaped(c, |s.invc|, |s.inport|, vcs) && Shaped(c', |s.invc|, |s.inport|, vcs)
      && if i != 0 && Speaker(PhaseAt(t, perVnet), i) == Some(v) then HeldAfter(c, c', i, v, |s.inport|, vcs, perVnet)
         else StaysAt(c, c', i, v)
  {
    hide CycleAt, IdleRow, FreeVc, Shaped;
    CycleShaped(t, |s.invc|, |s.inport|, vcs, perVnet);
    CycleShaped(t + 1, |s.invc|, |s.inport|, vcs, perVnet);
    if v < 2 {
      FreeAt(t, 0, v, vcs, perVnet);
      FreeAt(t, 1, v, vcs, perVnet);
    }
  }

  /** Every input VC of the schedule moves on by the rules. */
  lemma ScheduleInputs(t: nat, s: State, vcs: nat, perVnet: nat)
    requires Ready(PhaseAt(t, perVnet), s, vcs) && perVnet > 0 && vcs % perVnet == 0
    ensures var c, c' := CycleAt(t, |s.invc|, |s.inport|, vcs, perVnet), CycleAt(t + 1, |s.invc|, |s.inport|, vcs, perVnet);
      var w := Grid(PhaseAt(t, perVnet), |s.invc|, vcs);
      && Shaped(c, |s.invc|, |s.inport|, vcs) && Shaped(c', |s.invc|, |s.inport|, vcs) && Fits(w, s, vcs)
      && InputsFollow(s, w, c, c', vcs, perVnet)
  {
    hide CycleAt, Shaped, Sends, HeldAfter, StaysAt, Grid, Fits, PhaseAt;
    var c, c' := CycleAt(t, |s.invc|, |s.inport|, vcs, perVnet), CycleAt(t + 1, |s.invc|, |s.inport|, vcs, perVnet);
    PointersAfter(PhaseAt(t, perVnet), s, vcs);
    InputFollows(t, s, 0, 0, vcs, perVnet);
    forall i, v | 0 <= i < |s.invc| && 0 <= v < vcs
      ensures if i != 0 && Speaker(PhaseAt(t, perVnet), i) == Some(v) then HeldAfter(c, c', i, v, |s.inport|, vcs, perVnet)
        else StaysAt(c, c', i, v)
    {
      InputFollows(t, s, i, v, vcs, perVnet);
    }
  }

  lemma OutputFollows(t: nat, s: State, o: nat, u: nat, vcs: nat, perVnet: nat)
    requires Ready(PhaseAt(t, perVnet), s, vcs) && perVnet > 0 && vcs % perVnet == 0 && o < |s.inport| && u < vcs
    ensures var c := CycleAt(t, |s.invc|, |s.inport|, vcs, perVnet);
      var w := Grid(PhaseAt(t, perVnet), |s.invc|, vcs);
      && Fits(w, s, vcs) && Sized(NeedsOf(c), |s.invc|, vcs)
      && (NextIdle(s, w, NeedsOf(c), c.idle[o], o, vcs, perVnet)[u] ==> Idle(t + 1, o, u, perVnet))
  {
    hide CycleAt, FreeVc, Granted, Winner, Grid;
    var p := PhaseAt(t, perVnet);
    GridFits(p, s, vcs);
    if o == 1 {
      Takers(p, s, 1, vcs);
      Winners(p, s, Taker(p, 1).value, vcs);
      FreeAt(t, 1, 0, vcs, perVnet);
      FreeAt(t, 1, 1, vcs, perVnet);
    }
  }

  /** And so does every output VC. */
  lemma ScheduleOutputs(t: nat, s: State, vcs: nat, perVnet: nat)
    requires Ready(PhaseAt(t, perVnet), s, vcs) && perVnet > 0 && vcs % perVnet == 0
    ensures var c, c' := CycleAt(t, |s.invc|, |s.inport|, vcs, perVnet), CycleAt(t + 1, |s.invc|, |s.inport|, vcs, perVnet);
      var w := Grid(PhaseAt(t, perVnet), |s.invc|, vcs);
      && Shaped(c, |s.invc|, |s.inport|, vcs) && Shaped(c', |s.invc|, |s.inport|, vcs) && Fits(w, s, vcs)
      && Sized(NeedsOf(c), |s.invc|, vcs) && OutputsFollow(s, w, c, c', vcs, perVnet)
  {
    hide CycleAt, NextIdle, Grid, Fits, PhaseAt, Idle, NeedsOf, Granted;
    CycleShaped(t, |s.invc|, |s.inport|, vcs, perVnet);
    CycleShaped(t + 1, |s.invc|, |s.inport|, vcs, perVnet);
    OutputFollows(t, s, 0, 0, vcs, perVnet);
    var c, c' := CycleAt(t, |s.invc|, |s.inport|, vcs, perVnet), CycleAt(t + 1, |s.invc|, |s.inport|, vcs, perVnet);
    var w := Grid(PhaseAt(t, perVnet), |s.invc|, vcs);
    forall o, u | 0 <= o < |s.inport| && 0 <= u < vcs && NextIdle(s, w, NeedsOf(c), c.idle[o], o, vcs, perVnet)[u]
      ensures c'.idle[o][u]
    {
      OutputFollows(t, s, o, u, vcs, perVnet);
      assert c'.idle[o] == IdleRow(t + 1, o, vcs, perVnet);
    }
  }

  lemma ScheduleHolds(t: nat, inports: nat, outports: nat, vcs: nat, perVnet: nat)
    requires outports >= 2 && vcs >= 2 && perVnet > 0 && vcs % perVnet == 0
    ensures var c := CycleAt(t, inports, outports, vcs, perVnet);
      Shaped(c, inports, outports, vcs) && HeldAreBusy(c, outports, vcs)
  {
    hide CycleAt;
    Bases(vcs, perVnet);
    CycleShaped(t, inports, outports, vcs, perVnet);
    assert outports > 1 ==> CycleAt(t, inports, outports, vcs, perVnet).idle[1] == IdleRow(t, 1, vcs, perVnet);
  }

  lemma CycleFollows(t: nat, s: State, vcs: nat, perVnet: nat)
    requires Ready(PhaseAt(t, perVnet), s, vcs) && perVnet > 0 && vcs % perVnet == 0
    ensures var c, c' := CycleAt(t, |s.invc|, |s.inport|, vcs, perVnet), CycleAt(t + 1, |s.invc|, |s.inport|, vcs, perVnet);
      && Shaped(c, |s.invc|, |s.inport|, vcs) && Shaped(c', |s.invc|, |s.inport|, vcs)
      && Follows(s, c, c', vcs, perVnet)
  {
    hide CycleAt, Shaped, WantsOf, NeedsOf, InputsFollow, OutputsFollow, HeldAreBusy, Grid, Fits, PhaseAt;
    WantsAre(t, |s.invc|, |s.inport|, vcs, perVnet);
    ScheduleInputs(t, s, vcs, perVnet);
    ScheduleOutputs(t, s, vcs, perVnet);
    ScheduleHolds(t + 1, |s.invc|, |s.inport|, vcs, perVnet);
  }

  function Schedule(len: nat, inports: nat, outports: nat, vcs: nat, perVnet: nat): (cs: seq<Cycle>)
    ensures |cs| == len
  {
    seq(len, t requires 0 <= t < len => CycleAt(t, inports, outports, vcs, perVnet))
  }

  lemma ScheduleWants(len: nat, s: State, vcs: nat, perVnet: nat)
    requires Large(s, vcs) && perVnet > 0 && vcs % perVnet == 0
    ensures var cs := Schedule(len, |s.invc|, |s.inport|, vcs, perVnet);
      && AllShaped(cs, |s.invc|, |s.inport|, vcs)
      && var ws := AllWants(cs, |s.invc|, |s.inport|, vcs, perVnet);
         AllFit(ws, s, vcs) && forall t :: 0 <= t < len ==> ws[t] == Grid(PhaseAt(t, perVnet), |s.invc|, vcs)
  {
    hide CycleAt, Shaped, WantsOf, Grid, Fits, PhaseAt;
    var cs := Schedule(len, |s.invc|, |s.inport|, vcs, perVnet);
    forall t | 0 <= t < len
      ensures Shaped(cs[t], |s.invc|, |s.inport|, vcs)
      ensures WantsOf(cs[t], |s.inport|, vcs, perVnet) == Grid(PhaseAt(t, perVnet), |s.invc|, vcs)
    {
      WantsAre(t, |s.invc|, |s.inport|, vcs, perVnet);
    }
    AllWantsFit(cs, s, vcs, perVnet);
  }

  /** The pointers are where the schedule needs them, in every cycle. */
  lemma {:induction false} ScheduleRun(s: State, len: nat, t: nat, vcs: nat, perVnet: nat)
    requires Ready(Start, s, vcs) && perVnet > 0 && vcs % perVnet == 0 && t <= len
    ensures var cs := Schedule(len, |s.invc|, |s.inport|, vcs, perVnet);
      && AllShaped(cs, |s.invc|, |s.inport|, vcs)
      && var ws := AllWants(cs, |s.invc|, |s.inport|, vcs, perVnet);
         AllFit(ws, s, vcs) && Ready(PhaseAt(t, perVnet), After(s, ws, t, vcs), vcs)
    decreases t
  {
    hide Grid, Next, Fits, AllWants, AllShaped, Schedule;
    ScheduleWants(len, s, vcs, perVnet);
    if t > 0 {
      ScheduleRun(s, len, t - 1, vcs, perVnet);
      var ws := AllWants(Schedule(len, |s.invc|, |s.inport|, vcs, perVnet), |s.invc|, |s.inport|, vcs, perVnet);
      PointersAfter(PhaseAt(t - 1, perVnet), After(s, ws, t - 1, vcs), vcs);
    }
  }

  lemma FirstIsFresh(inports: nat, outports: nat, vcs: nat, perVnet: nat)
    ensures Fresh(CycleAt(0, inports, outports, vcs, perVnet))
  {
    hide CycleAt;
  }

  lemma ScheduleLawful(len: nat, inports: nat, outports: nat, vcs: nat, perVnet: nat)
    requires inports >= 3 && outports >= 2 && vcs >= 2 && perVnet > 0 && vcs % perVnet == 0
    ensures Lawful(Schedule(len, inports, outports, vcs, perVnet), inports, outports, vcs, perVnet)
  {
    hide CycleAt, Follows, Shaped, Fresh, AllWants, PhaseAt, After, Fits;
    var s := Init(inports, outports);
    var cs := Schedule(len, inports, outports, vcs, perVnet);
    ScheduleWants(len, s, vcs, perVnet);
    FirstIsFresh(inports, outports, vcs, perVnet);
    var ws := AllWants(cs, inports, outports, vcs, perVnet);
    forall t | 0 <= t < len - 1 ensures Follows(After(s, ws, t, vcs), cs[t], cs[t + 1], vcs, perVnet) {
      ScheduleRun(s, len, t, vcs, perVnet);
      CycleFollows(t, After(s, ws, t, vcs), vcs, perVnet);
    }
  }

  lemma LargeStarves(len: nat, inports: nat, outports: nat, vcs: nat, perVnet: nat)
    requires inports >= 3 && outports >= 2 && vcs >= 2 && perVnet > 0 && vcs % perVnet == 0
    ensures Starves(Schedule(Prefix(perVnet) + len, inports, outports, vcs, perVnet), Prefix(perVnet), 0, 1, 0,
                    inports, outports, vcs, perVnet)
  {
    hide Lawful, Schedule, AllShaped, AllWants, Follows, After, Fits, Prefix, Sends;
    var s := Init(inports, outports);
    var cs := Schedule(Prefix(perVnet) + len, inports, outports, vcs, perVnet);
    ScheduleLawful(Prefix(perVnet) + len, inports, outports, vcs, perVnet);
    ScheduleWants(Prefix(perVnet) + len, s, vcs, perVnet);
    var ws := AllWants(cs, inports, outports, vcs, perVnet);
    forall u | Prefix(perVnet) <= u < |cs| ensures ws[u][0][1] == Some(0) && !Sent(s, ws, u, 0, 1, vcs) {
      ScheduleRun(s, Prefix(perVnet) + len, u, vcs, perVnet);
      PointersAfter(PhaseAt(u, perVnet), After(s, ws, u, vcs), vcs);
    }
    assert Lawful(cs, inports, outports, vcs, perVnet);
  }

  lemma SmallServes(cs: seq<Cycle>, t: nat, i: nat, v: nat, o: nat, inports: nat, outports: nat, vcs: nat, perVnet: nat)
    requires perVnet > 0 && vcs % perVnet == 0
    requires Small(inports, outports, vcs) && |cs| >= t + vcs * (inports + outports + 1)
    ensures !Starves(cs, t, i, v, o, inports, outports, vcs, perVnet)
  {
    hide Small, Sent, WantsOf, Follows, AllFit;
    if Starves(cs, t, i, v, o, inports, outports, vcs, perVnet) {
      SentInSmallRouters(Init(inports, outports), AllWants(cs, inports, outports, vcs, perVnet), t, i, v, o, vcs);
    }
  }

  /** A VC that wants the same output port in every cycle can be starved exactly in
      routers with at least three input ports, two output ports and two VCs, whatever
      the size of a virtual network. */
  lemma StarvableIff(inports: nat, outports: nat, vcs: nat, perVnet: nat)
    requires perVnet > 0 && vcs % perVnet == 0
    ensures Starvable(inports, outports, vcs, perVnet) <==> inports >= 3 && outports >= 2 && vcs >= 2
  {
    hide Starves, Schedule;
    if inports >= 3 && outports >= 2 && vcs >= 2 {
      forall len: nat ensures StarvesFor(len, inports, outports, vcs, perVnet) {
        LargeStarves(len, inports, outports, vcs, perVnet);
      }
    } else {
      var len := vcs * (inports + outports + 1);
      assert len >= 0;
      assert Small(inports, outports, vcs);
      forall cs, t: nat, i: nat, v: nat, o: nat | |cs| == t + len
        ensures !Starves(cs, t, i, v, o, inports, outports, vcs, perVnet)
      {
        SmallServes(cs, t, i, v, o, inports, outports, vcs, perVnet);
      }
      assert !StarvesFor(len, inports, outports, vcs, perVnet);
    }
  }
}
