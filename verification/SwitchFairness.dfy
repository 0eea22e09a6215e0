/** Fairness of the switch allocator over whole runs: which routers serve every VC
    that keeps asking for an output port, and within how many cycles. */
module SwitchFairness {
  import opened Arith
  import opened Wrappers
  import opened SwitchAllocator

  // ----- runs

  ghost predicate AllFit(ws: seq<Wants>, s: State, vcs: nat) {
    forall t :: 0 <= t < |ws| ==> Fits(ws[t], s, vcs)
  }

  function After(s: State, ws: seq<Wants>, t: nat, vcs: nat): (r: State)
    requires Valid(s, vcs) && AllFit(ws, s, vcs) && t <= |ws|
    ensures Valid(r, vcs) && |r.invc| == |s.invc| && |r.inport| == |s.inport|
  {
    if t == 0 then s else Next(After(s, ws, t - 1, vcs), ws[t - 1], vcs)
  }

  /** VC v of input port i gets the output port it wants. */
  predicate Sends(s: State, w: Wants, i: nat, v: nat, vcs: nat)
    requires Valid(s, vcs) && Fits(w, s, vcs) && i < |s.invc|
  {
    Winner(s, w, i, vcs) == Some(v) && Served(s, w, i, vcs)
  }

  /** It does so in cycle t. */
  ghost predicate Sent(s: State, ws: seq<Wants>, t: nat, i: nat, v: nat, vcs: nat)
    requires Valid(s, vcs) && AllFit(ws, s, vcs) && t < |ws| && i < |s.invc|
  {
    Sends(After(s, ws, t, vcs), ws[t], i, v, vcs)
  }

  /** x n + c < y n when x < y and c < n. */
  lemma Below(x: nat, c: nat, y: nat, n: nat)
    requires x < y && c < n
    ensures x * n + c < y * n
  {
    MulAtLeast(n, y - x);
    assert n * (y - x) == y * n - x * n;
  }

  // ----- routers that cannot starve a VC

  /** How many output ports have their pointer on another input port. */
  function Elsewhere(inport: seq<nat>, i: nat): (n: nat)
    ensures n <= |inport|
  {
    if inport == [] then 0 else (if inport[0] != i then 1 else 0) + Elsewhere(inport[1..], i)
  }

  lemma {:induction false} ElsewhereDrops(a: seq<nat>, b: seq<nat>, i: nat, q: nat)
    requires |a| == |b| && q <= |a|
    requires forall r :: 0 <= r < |a| && a[r] == i ==> b[r] == i
    requires q < |a| ==> a[q] != i && b[q] == i
    ensures Elsewhere(b, i) <= Elsewhere(a, i) && (q < |a| ==> Elsewhere(b, i) < Elsewhere(a, i))
    decreases |a|
  {
    if a != [] {
      ElsewhereDrops(a[1..], b[1..], i, if q == 0 then |a| - 1 else q - 1);
    }
  }

  /** Sizes at which every lost cycle counts: with two input ports a loser is next at
      that output port; with one output port or one VC a port asks for the same
      output port all the time. */
  predicate Small(inports: nat, outports: nat, vcs: nat) {
    inports <= 2 || outports <= 1 || vcs <= 1
  }

  /** The cycles input port i can still lose before it is served. */
  function Losses(s: State, i: nat, o: nat, vcs: nat): (n: nat)
    requires Valid(s, vcs) && i < |s.invc| && o < |s.inport|
    ensures n <= |s.invc| + |s.inport|
  {
    if |s.invc| <= 2 then Elsewhere(s.inport, i) else Dist(s.inport[o], i, |s.invc|)
  }

  lemma LossesDrop(s: State, w: Wants, i: nat, v: nat, o: nat, vcs: nat)
    requires Valid(s, vcs) && Fits(w, s, vcs) && i < |s.invc| && v < vcs && o < |s.inport|
    requires Small(|s.invc|, |s.inport|, vcs) && w[i][v] == Some(o) && !Served(s, w, i, vcs)
    ensures Losses(Next(s, w, vcs), i, o, vcs) < Losses(s, i, o, vcs)
  {
    hide Elsewhere, Pick;
    WorkConserving(s, w, vcs, i, v);
    var q := Request(s, w, i, vcs).value;
    var j := Granted(s, w, q, vcs).value;
    PickNearest(AskMarks(Requests(s, w, vcs), q), s.inport[q], i);
    DistAfter(s.inport[q], j, i, |s.invc|);
    if |s.invc| <= 2 {
      ElsewhereDrops(s.inport, Next(s, w, vcs).inport, i, q);
    } else {
      assert q == o;
    }
  }

  /** What separates VC v of input port i from its turn. */
  function Turns(s: State, i: nat, v: nat, o: nat, vcs: nat): nat
    requires Valid(s, vcs) && i < |s.invc| && v < vcs && o < |s.inport|
  {
    Dist(s.invc[i], v, vcs) * (|s.invc| + |s.inport| + 1) + Losses(s, i, o, vcs)
  }

  lemma TurnsDrop(s: State, w: Wants, i: nat, v: nat, o: nat, vcs: nat)
    requires Valid(s, vcs) && Fits(w, s, vcs) && i < |s.invc| && v < vcs && o < |s.inport|
    requires Small(|s.invc|, |s.inport|, vcs) && w[i][v] == Some(o) && !Sends(s, w, i, v, vcs)
    ensures Turns(Next(s, w, vcs), i, v, o, vcs) < Turns(s, i, v, o, vcs)
  {
    hide Losses, Dist, Pick, Small;
    var next := Next(s, w, vcs);
    if Served(s, w, i, vcs) {
      PickNearest(WantMarks(w[i]), s.invc[i], v);
      DistAfter(s.invc[i], Winner(s, w, i, vcs).value, v, vcs);
      Below(Dist(next.invc[i], v, vcs), Losses(next, i, o, vcs), Dist(s.invc[i], v, vcs), |s.invc| + |s.inport| + 1);
    } else {
      LossesDrop(s, w, i, v, o, vcs);
    }
  }

  lemma TurnsBound(s: State, i: nat, v: nat, o: nat, vcs: nat)
    requires Valid(s, vcs) && i < |s.invc| && v < vcs && o < |s.inport|
    ensures Turns(s, i, v, o, vcs) < vcs * (|s.invc| + |s.inport| + 1)
  {
    hide Losses, Dist;
    DistStep(s.invc[i], v, vcs);
    Below(Dist(s.invc[i], v, vcs), Losses(s, i, o, vcs), vcs, |s.invc| + |s.inport| + 1);
  }

  lemma {:induction false} SentWithin(s: State, ws: seq<Wants>, t: nat, i: nat, v: nat, o: nat, vcs: nat)
    requires Valid(s, vcs) && AllFit(ws, s, vcs) && i < |s.invc| && v < vcs && o < |s.inport| && t <= |ws|
    requires Small(|s.invc|, |s.inport|, vcs)
    requires forall u :: t <= u < |ws| ==> ws[u][i][v] == Some(o)
    requires t + Turns(After(s, ws, t, vcs), i, v, o, vcs) < |ws|
    ensures exists u :: t <= u < |ws| && Sent(s, ws, u, i, v, vcs)
    decreases |ws| - t
  {
    hide Turns, Next, Sends, Small;
    if !Sent(s, ws, t, i, v, vcs) {
      TurnsDrop(After(s, ws, t, vcs), ws[t], i, v, o, vcs);
      SentWithin(s, ws, t + 1, i, v, o, vcs);
    }
  }

  /** At such sizes a VC that wants an output port in vcs * (inports + outports + 1)
      consecutive cycles is sent in one of them, from any pointers and whatever
      everything else in the router wants. */
  lemma SentInSmallRouters(s: State, ws: seq<Wants>, t: nat, i: nat, v: nat, o: nat, vcs: nat)
    requires Valid(s, vcs) && AllFit(ws, s, vcs) && i < |s.invc| && v < vcs && o < |s.inport|
    requires Small(|s.invc|, |s.inport|, vcs)
    requires t + vcs * (|s.invc| + |s.inport| + 1) <= |ws|
    requires forall u :: t <= u < |ws| ==> ws[u][i][v] == Some(o)
    ensures exists u :: t <= u < |ws| && Sent(s, ws, u, i, v, vcs)
  {
    hide Turns, After, Sent, Small;
    assert vcs * (|s.invc| + |s.inport| + 1) >= 0;
    TurnsBound(After(s, ws, t, vcs), i, v, o, vcs);
    SentWithin(s, ws, t, i, v, o, vcs);
  }

  // ----- large routers whose losers do not give up

  /** How far VC v of input port i is from its turn: VCs before it, then VCs that
      may still overtake the chosen one, then input ports before this one. */
  function Wait(s: State, w: Wants, i: nat, v: nat, vcs: nat): nat
    requires Valid(s, vcs) && Fits(w, s, vcs) && i < |s.invc| && v < vcs
    requires Winner(s, w, i, vcs).Some?
  {
    var o := Request(s, w, i, vcs).value;
    Measure(Dist(s.invc[i], v, vcs), Dist(s.invc[i], Winner(s, w, i, vcs).value, vcs), Dist(s.inport[o], i, |s.invc|),
            vcs, |s.invc|)
  }

  function Measure(a: nat, b: nat, c: nat, vcs: nat, n: nat): nat {
    var x: nat := a * vcs + b;
    x * n + c
  }

  lemma MeasureBound(a: nat, b: nat, c: nat, vcs: nat, n: nat)
    requires a < vcs && b < vcs && c < n
    ensures Measure(a, b, c, vcs, n) < vcs * vcs * n
  {
    Below(a, b, vcs, vcs);
    Below(a * vcs + b, c, vcs * vcs, n);
  }

  lemma MeasureDrops(a: nat, b: nat, c: nat, a': nat, b': nat, c': nat, vcs: nat, n: nat)
    requires b' < vcs && c' < n
    requires a' < a || (a' == a && (b' < b || (b' == b && c' < c)))
    ensures Measure(a', b', c', vcs, n) < Measure(a, b, c, vcs, n)
  {
    var x, x' := a * vcs + b, a' * vcs + b';
    if a' < a {
      Below(a', b', a, vcs);
    }
    if x' < x {
      Below(x', c', x, n);
    }
  }

  /** The VC the port chose, if it lost, wants the same again. */
  ghost predicate LoserStays(s: State, w: Wants, w': Wants, i: nat, vcs: nat)
    requires Valid(s, vcs) && Fits(w, s, vcs) && Fits(w', s, vcs) && i < |s.invc|
  {
    Winner(s, w, i, vcs).Some? && !Served(s, w, i, vcs) ==>
      var u := Winner(s, w, i, vcs).value; w'[i][u] == w[i][u]
  }

  /** A cycle that does not send a waiting VC brings it closer if the loser stays,
      whatever the other VCs of the port and the other ports do. */
  lemma CycleHelps(s: State, w: Wants, w': Wants, i: nat, v: nat, vcs: nat)
    requires Valid(s, vcs) && Fits(w, s, vcs) && Fits(w', s, vcs) && i < |s.invc| && v < vcs
    requires w[i][v].Some? && w'[i][v].Some? && !Sends(s, w, i, v, vcs) && LoserStays(s, w, w', i, vcs)
    ensures Winner(s, w, i, vcs).Some? && Winner(Next(s, w, vcs), w', i, vcs).Some?
    ensures Wait(Next(s, w, vcs), w', i, v, vcs) < Wait(s, w, i, v, vcs)
  {
    hide Measure, Dist, Succ, Pick;
    var n, next := |s.invc|, Next(s, w, vcs);
    var p := s.invc[i];
    PickNearest(WantMarks(w[i]), p, v);
    var u := Winner(s, w, i, vcs).value;
    var o := Request(s, w, i, vcs).value;
    PickNearest(WantMarks(w'[i]), next.invc[i], v);
    var u' := Winner(next, w', i, vcs).value;
    var o' := Request(next, w', i, vcs).value;
    DistStep(next.invc[i], u', vcs);
    DistStep(next.inport[o'], i, n);
    if Served(s, w, i, vcs) {
      DistAfter(p, u, v, vcs);
    } else {
      assert next.invc[i] == p;
      PickNearest(WantMarks(w'[i]), p, u);
      if u' == u {
        assert o' == o;
        PickNearest(AskMarks(Requests(s, w, vcs), o), s.inport[o], i);
        DistAfter(s.inport[o], Granted(s, w, o, vcs).value, i, n);
      } else {
        DistDistinct(p, u, u', vcs);
      }
    }
    MeasureDrops(Dist(p, v, vcs), Dist(p, u, vcs), Dist(s.inport[o], i, n),
                 Dist(next.invc[i], v, vcs), Dist(next.invc[i], u', vcs), Dist(next.inport[o'], i, n), vcs, n);
  }

  lemma DistDistinct(p: nat, u: nat, u': nat, n: nat)
    requires p < n && u < n && u' < n && u != u'
    ensures Dist(p, u, n) != Dist(p, u', n)
  {}

  ghost predicate LosersStay(s: State, ws: seq<Wants>, i: nat, vcs: nat)
    requires Valid(s, vcs) && AllFit(ws, s, vcs) && i < |s.invc|
  {
    forall t :: 0 <= t < |ws| - 1 ==> LoserStays(After(s, ws, t, vcs), ws[t], ws[t + 1], i, vcs)
  }

  /** VC v wants something until it is sent, not always the same. */
  ghost predicate KeepsAsking(s: State, ws: seq<Wants>, i: nat, v: nat, vcs: nat)
    requires Valid(s, vcs) && AllFit(ws, s, vcs) && i < |s.invc| && v < vcs
  {
    forall t :: 0 <= t < |ws| - 1 && ws[t][i][v].Some? && !Sent(s, ws, t, i, v, vcs) ==> ws[t + 1][i][v].Some?
  }

  lemma StepOf(s: State, ws: seq<Wants>, t: nat, vcs: nat)
    requires Valid(s, vcs) && AllFit(ws, s, vcs) && t < |ws|
    ensures var now := After(s, ws, t, vcs);
      && Fits(ws[t], now, vcs) && (t + 1 < |ws| ==> Fits(ws[t + 1], now, vcs))
      && After(s, ws, t + 1, vcs) == Next(now, ws[t], vcs)
  {}

  lemma {:induction false} SentInTurn(s: State, ws: seq<Wants>, t: nat, i: nat, v: nat, vcs: nat)
    requires Valid(s, vcs) && AllFit(ws, s, vcs) && i < |s.invc| && v < vcs && t < |ws|
    requires LosersStay(s, ws, i, vcs) && KeepsAsking(s, ws, i, v, vcs) && ws[t][i][v].Some?
    requires Winner(After(s, ws, t, vcs), ws[t], i, vcs).Some?
    requires t + Wait(After(s, ws, t, vcs), ws[t], i, v, vcs) < |ws|
    ensures exists u :: t <= u < |ws| && Sent(s, ws, u, i, v, vcs)
    decreases |ws| - t
  {
    hide Wait, Next, Winner, Sends, LoserStays, Fits, After;
    StepOf(s, ws, t, vcs);
    var now := After(s, ws, t, vcs);
    if !Sent(s, ws, t, i, v, vcs) {
      if t + 1 < |ws| {
        CycleHelps(now, ws[t], ws[t + 1], i, v, vcs);
        SentInTurn(s, ws, t + 1, i, v, vcs);
      } else {
        LastCycle(now, ws[t], i, v, vcs);
      }
    }
  }

  lemma LastCycle(s: State, w: Wants, i: nat, v: nat, vcs: nat)
    requires Valid(s, vcs) && Fits(w, s, vcs) && i < |s.invc| && v < vcs && w[i][v].Some?
    requires Winner(s, w, i, vcs).Some? && Wait(s, w, i, v, vcs) == 0
    ensures Sends(s, w, i, v, vcs)
  {
    hide Wait;
    if !Sends(s, w, i, v, vcs) {
      CycleHelps(s, w, w, i, v, vcs);
    }
  }

  /** At any size: a VC that keeps asking is sent within vcs * vcs * inports cycles if
      the VC its port chose, whenever it loses, asks for the same again. */
  lemma NoStarvation(s: State, ws: seq<Wants>, i: nat, v: nat, vcs: nat)
    requires Valid(s, vcs) && AllFit(ws, s, vcs) && i < |s.invc| && v < vcs
    requires |ws| >= vcs * vcs * |s.invc| && |ws| > 0 && ws[0][i][v].Some?
    requires KeepsAsking(s, ws, i, v, vcs) && LosersStay(s, ws, i, vcs)
    ensures exists t :: 0 <= t < |ws| && Sent(s, ws, t, i, v, vcs)
  {
    hide Measure, Dist, Pick, Sent;
    PickNearest(WantMarks(ws[0][i]), s.invc[i], v);
    var u := Winner(s, ws[0], i, vcs).value;
    var o := Request(s, ws[0], i, vcs).value;
    DistStep(s.invc[i], v, vcs);
    DistStep(s.invc[i], u, vcs);
    DistStep(s.inport[o], i, |s.invc|);
    MeasureBound(Dist(s.invc[i], v, vcs), Dist(s.invc[i], u, vcs), Dist(s.inport[o], i, |s.invc|), vcs, |s.invc|);
    SentInTurn(s, ws, 0, i, v, vcs);
  }
}
