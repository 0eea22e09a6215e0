/** One garnet link with its virtual channels: the sender's output VC states and
    credit counters, the flits on the wire, the receiver's input VCs and the
    credits on their way back (OutVcState, OutputUnit, SwitchAllocator,
    InputUnit, NetworkInterface).  Sender, receiver and the two wires take their
    steps in any order. */
module CreditProtocol {

  datatype Kind = Head | Body | Tail | HeadTail

  /** A flit knows its packet and its place in it. */
  datatype Flit = Flit(packet: nat, index: nat, kind: Kind)

  predicate IsHead(f: Flit) {
    f.kind.Head? || f.kind.HeadTail?
  }

  predicate IsTail(f: Flit) {
    f.kind.Tail? || f.kind.HeadTail?
  }

  type Size = n: nat | n >= 1 witness 1

  /** A packet to send: its number and how many flits it has. */
  datatype Message = Message(packet: nat, size: Size)

  function KindAt(index: nat, size: Size): Kind {
    if size == 1 then HeadTail else if index == 0 then Head else if index == size - 1 then Tail else Body
  }

  /** The flits of a packet, in order. */
  function Packet(m: Message): (p: seq<Flit>)
    ensures |p| == m.size
  {
    seq(m.size, i requires 0 <= i < m.size => Flit(m.packet, i, KindAt(i, m.size)))
  }

  datatype VcState = Idle | Active

  /** Both ends of one virtual channel.  The sender keeps out, credits and the
      flits of the current packet it has not sent yet; the receiver keeps
      inState and buffer.  packets and drained record the packets given the
      channel and the flits that left the receiver's buffer. */
  datatype Vc = Vc(out: VcState, credits: int, pending: seq<Flit>,
                   inState: VcState, buffer: seq<Flit>,
                   drained: seq<Flit>, packets: seq<Message>)

  datatype Wired = Wired(vc: nat, flit: Flit)
  datatype Credit = Credit(vc: nat, isFree: bool)

  datatype Link = Link(vcs: seq<Vc>, wire: seq<Wired>, creditWire: seq<Credit>)

  datatype Step =
    | RouterAllocate(vc: nat, m: Message) // switch allocation of a head flit: free VC taken, flit sent
    | NiAllocate(vc: nat, m: Message)     // a network interface takes a free VC for a message
    | Send(vc: nat)                      // a flit of the current packet, credit permitting
    | Arrive                             // the receiver takes a flit off the wire
    | Drain(vc: nat)                     // a flit leaves the receiver's buffer; a credit is sent
    | CreditArrive                       // the sender takes a credit off the wire

  predicate ValidVcs(s: Link) {
    && (forall i :: 0 <= i < |s.wire| ==> s.wire[i].vc < |s.vcs|)
    && (forall i :: 0 <= i < |s.creditWire| ==> s.creditWire[i].vc < |s.vcs|)
  }

  /** When the code takes a step. A head flit goes out on any idle VC without a
      look at the credit count. */
  predicate Enabled(s: Link, step: Step) {
    match step
    case RouterAllocate(v, m) => v < |s.vcs| && s.vcs[v].out.Idle?
    case NiAllocate(v, m) => v < |s.vcs| && s.vcs[v].out.Idle?
    case Send(v) => v < |s.vcs| && s.vcs[v].pending != [] && s.vcs[v].credits > 0
    case Arrive => s.wire != []
    case Drain(v) => v < |s.vcs| && s.vcs[v].buffer != []
    case CreditArrive => s.creditWire != []
  }

  /** The assertions the source makes while taking a step. */
  predicate Asserts(s: Link, step: Step, depth: seq<nat>)
    requires ValidVcs(s) && Enabled(s, step) && |depth| == |s.vcs|
  {
    match step
    case RouterAllocate(v, m) => s.vcs[v].credits - 1 >= 0
    case NiAllocate(v, m) => true
    case Send(v) => s.vcs[v].out.Active? && s.vcs[v].credits - 1 >= 0
    case Arrive =>
      var f := s.wire[0];
      if IsHead(f.flit) then s.vcs[f.vc].inState.Idle? else s.vcs[f.vc].inState.Active?
    case Drain(v) =>
      && s.vcs[v].inState.Active?
      && (IsTail(s.vcs[v].buffer[0]) ==> s.vcs[v].buffer[1..] == [])
    case CreditArrive =>
      var c := s.creditWire[0];
      s.vcs[c.vc].credits + 1 <= depth[c.vc]
  }

  function Next(s: Link, step: Step): Link
    requires ValidVcs(s) && Enabled(s, step)
  {
    match step
    case RouterAllocate(v, m) =>
      var c, p := s.vcs[v], Packet(m);
      Link(s.vcs[v := c.(out := Active, credits := c.credits - 1, pending := p[1..], packets := c.packets + [m])],
           s.wire + [Wired(v, p[0])], s.creditWire)
    case NiAllocate(v, m) =>
      var c := s.vcs[v];
      s.(vcs := s.vcs[v := c.(out := Active, pending := Packet(m), packets := c.packets + [m])])
    case Send(v) =>
      var c := s.vcs[v];
      Link(s.vcs[v := c.(credits := c.credits - 1, pending := c.pending[1..])],
           s.wire + [Wired(v, c.pending[0])], s.creditWire)
    case Arrive =>
      var f := s.wire[0];
      var c := s.vcs[f.vc];
      Link(s.vcs[f.vc := c.(inState := if IsHead(f.flit) then Active else c.inState, buffer := c.buffer + [f.flit])], s.wire[1..], s.creditWire)
    case Drain(v) =>
      var c := s.vcs[v];
      var k := c.buffer[0];
      Link(s.vcs[v := c.(buffer := c.buffer[1..], drained := c.drained + [k],
                         inState := if IsTail(k) then Idle else c.inState)],
           s.wire, s.creditWire + [Credit(v, IsTail(k))])
    case CreditArrive =>
      var r := s.creditWire[0];
      var c := s.vcs[r.vc];
      Link(s.vcs[r.vc := c.(credits := c.credits + 1, out := if r.isFree then Idle else c.out)],
           s.wire, s.creditWire[1..])
  }

  function Init(depth: seq<nat>): (s: Link)
    ensures ValidVcs(s)
  {
    Link(seq(|depth|, i requires 0 <= i < |depth| => Vc(Idle, depth[i], [], Idle, [], [], [])), [], [])
  }

  /** A run: any sequence of enabled steps. */
  ghost predicate IsRun(s: Link, steps: seq<Step>)
    decreases |steps|
  {
    steps == [] || (ValidVcs(s) && Enabled(s, steps[0]) && IsRun(Next(s, steps[0]), steps[1..]))
  }

  ghost function After(s: Link, steps: seq<Step>): Link
    requires IsRun(s, steps)
    decreases |steps|
  {
    if steps == [] then s else After(Next(s, steps[0]), steps[1..])
  }

  // ----- one virtual channel seen on its own

  function FlitsOf(w: seq<Wired>, v: nat): seq<Flit> {
    if w == [] then [] else (if w[0].vc == v then [w[0].flit] else []) + FlitsOf(w[1..], v)
  }

  function FreesOf(w: seq<Credit>, v: nat): seq<bool> {
    if w == [] then [] else (if w[0].vc == v then [w[0].isFree] else []) + FreesOf(w[1..], v)
  }

  /** The flits of a series of packets. */
  function Flatten(packets: seq<Message>): seq<Flit> {
    if packets == [] then [] else Flatten(packets[..|packets| - 1]) + Packet(packets[|packets| - 1])
  }

  /** The flits of the first i packets. */
  function Offset(packets: seq<Message>, i: nat): nat
    requires i <= |packets|
  {
    if i == 0 then 0 else Offset(packets, i - 1) + packets[i - 1].size
  }

  lemma {:induction false} OffsetPrefix(packets: seq<Message>, n: nat, i: nat)
    requires i <= n <= |packets|
    ensures Offset(packets[..n], i) == Offset(packets, i)
  {
    if i > 0 { OffsetPrefix(packets, n, i - 1); }
  }

  lemma {:induction false} FlattenLength(packets: seq<Message>)
    ensures |Flatten(packets)| == Offset(packets, |packets|)
  {
    if packets != [] {
      FlattenLength(packets[..|packets| - 1]);
      OffsetPrefix(packets, |packets| - 1, |packets| - 1);
    }
  }

  lemma {:induction false} OffsetMonotone(packets: seq<Message>, i: nat, k: nat)
    requires i < k <= |packets|
    ensures Offset(packets, i) + packets[i].size <= Offset(packets, k)
    decreases k
  {
    if i < k - 1 { OffsetMonotone(packets, i, k - 1); }
  }

  /** Flit j of packet i, where it stands among all: it bears the number of the packet
      and j, only the first is a head and only the last a tail. */
  lemma {:induction false} FlattenAt(packets: seq<Message>, i: nat, j: nat)
    requires i < |packets| && j < packets[i].size
    ensures Offset(packets, i) + j < |Flatten(packets)|
    ensures var f := Flatten(packets)[Offset(packets, i) + j];
      f.packet == packets[i].packet && f.index == j && (IsHead(f) <==> j == 0) && (IsTail(f) <==> j == packets[i].size - 1)
    decreases |packets|
  {
    var n := |packets| - 1;
    OffsetPrefix(packets, n, i);
    FlattenLength(packets[..n]);
    FlattenLength(packets);
    OffsetPrefix(packets, n, n);
    if i < n {
      OffsetMonotone(packets, i, n);
      FlattenAt(packets[..n], i, j);
    }
  }

  /** Every flit has its packet and place. */
  lemma {:induction false} Locate(packets: seq<Message>, k: nat) returns (i: nat, j: nat)
    requires k < |Flatten(packets)|
    ensures i < |packets| && j < packets[i].size && k == Offset(packets, i) + j
    decreases |packets|
  {
    var n := |packets| - 1;
    FlattenLength(packets[..n]);
    FlattenLength(packets);
    OffsetPrefix(packets, n, n);
    if k < |Flatten(packets[..n])| {
      i, j := Locate(packets[..n], k);
      OffsetPrefix(packets, n, i);
    } else {
      i, j := n, k - Offset(packets, n);
    }
  }

  /** So the flits of packets with different numbers are all different, and the order
      in which they are drained can be told. */
  lemma FlitsDiffer(packets: seq<Message>, k: nat, l: nat)
    requires forall a, b :: 0 <= a < b < |packets| ==> packets[a].packet != packets[b].packet
    requires k < l < |Flatten(packets)|
    ensures Flatten(packets)[k] != Flatten(packets)[l]
  {
    var i, j := Locate(packets, k);
    var i', j' := Locate(packets, l);
    FlattenAt(packets, i, j);
    FlattenAt(packets, i', j');
  }

  /** What is left of a packet: it ends with its only tail, and no head comes
      after the first flit. */
  ghost predicate Remainder(f: seq<Flit>) {
    && f != [] && IsTail(f[|f| - 1])
    && (forall i :: 0 <= i < |f| - 1 ==> !IsTail(f[i]))
    && (forall i :: 1 <= i < |f| ==> !IsHead(f[i]))
  }

  /** The invariant of one channel, given its flits and credits in flight. */
  ghost predicate VcInv(c: Vc, w: seq<Flit>, r: seq<bool>, depth: nat) {
    && c.credits >= 0
    && c.credits + |w| + |c.buffer| + |r| == depth
    && c.drained + c.buffer + w + c.pending == Flatten(c.packets)
    && if c.out.Idle? then
         c.buffer == [] && w == [] && c.pending == [] && r == [] && c.inState.Idle?
       else
         var f := c.buffer + w + c.pending;
         if f == [] then
           && c.inState.Idle?
           && r != [] && r[|r| - 1] && (forall i :: 0 <= i < |r| - 1 ==> !r[i])
         else
           && Remainder(f)
           && (forall i :: 0 <= i < |r| ==> !r[i])
           && (if c.inState.Idle? then c.buffer == [] && IsHead(f[0])
               else forall i :: |c.buffer| <= i < |f| ==> !IsHead(f[i]))
  }

  ghost predicate Inv(s: Link, depth: seq<nat>) {
    && |depth| == |s.vcs| && ValidVcs(s)
    && (forall v :: 0 <= v < |depth| ==> depth[v] >= 1)
    && (forall v :: 0 <= v < |depth| ==> VcInv(s.vcs[v], FlitsOf(s.wire, v), FreesOf(s.creditWire, v), depth[v]))
  }

  // ----- steps of one channel keep its invariant

  lemma PacketRemainder(m: Message)
    ensures Remainder(Packet(m)) && IsHead(Packet(m)[0])
  {}

  lemma FlattenAppend(packets: seq<Message>, m: Message)
    ensures Flatten(packets + [m]) == Flatten(packets) + Packet(m)
  {
    assert (packets + [m])[..|packets|] == packets;
  }

  lemma VcRouterAllocate(c: Vc, w: seq<Flit>, r: seq<bool>, depth: nat, m: Message)
    requires VcInv(c, w, r, depth) && depth >= 1 && c.out.Idle?
    ensures c.credits >= 1
    ensures var p := Packet(m);
      VcInv(c.(out := Active, credits := c.credits - 1, pending := p[1..], packets := c.packets + [m]),
            w + [p[0]], r, depth)
  {
    hide Packet, Remainder;
    var p := Packet(m);
    PacketRemainder(m);
    FlattenAppend(c.packets, m);
    assert c.buffer + (w + [p[0]]) + p[1..] == p;
    assert c.drained + c.buffer + (w + [p[0]]) + p[1..] == c.drained + c.buffer + w + c.pending + p;
  }

  lemma VcNiAllocate(c: Vc, w: seq<Flit>, r: seq<bool>, depth: nat, m: Message)
    requires VcInv(c, w, r, depth) && c.out.Idle?
    ensures VcInv(c.(out := Active, pending := Packet(m), packets := c.packets + [m]), w, r, depth)
  {
    hide Packet, Remainder;
    PacketRemainder(m);
    FlattenAppend(c.packets, m);
    assert c.buffer + w + Packet(m) == Packet(m);
    assert c.drained + c.buffer + w + Packet(m) == c.drained + c.buffer + w + c.pending + Packet(m);
  }

  lemma VcSend(c: Vc, w: seq<Flit>, r: seq<bool>, depth: nat)
    requires VcInv(c, w, r, depth) && c.pending != [] && c.credits > 0
    ensures c.out.Active?
    ensures VcInv(c.(credits := c.credits - 1, pending := c.pending[1..]), w + [c.pending[0]], r, depth)
  {
    hide Remainder, Flatten;
    var k, p := c.pending[0], c.pending[1..];
    assert c.pending == [k] + p;
    assert c.buffer + (w + [k]) + p == c.buffer + w + c.pending;
    assert c.drained + c.buffer + (w + [k]) + p == c.drained + c.buffer + w + c.pending;
  }

  lemma VcArrive(c: Vc, k: Flit, w: seq<Flit>, r: seq<bool>, depth: nat)
    requires VcInv(c, [k] + w, r, depth)
    ensures if IsHead(k) then c.inState.Idle? else c.inState.Active?
    ensures VcInv(c.(inState := if IsHead(k) then Active else c.inState, buffer := c.buffer + [k]), w, r, depth)
  {
    hide Flatten, IsTail;
    var f := c.buffer + ([k] + w) + c.pending;
    assert f[|c.buffer|] == k;
    assert c.buffer + [k] + w + c.pending == f;
    assert c.drained + (c.buffer + [k]) + w + c.pending == c.drained + c.buffer + ([k] + w) + c.pending;
  }

  lemma VcDrain(c: Vc, w: seq<Flit>, r: seq<bool>, depth: nat)
    requires VcInv(c, w, r, depth) && c.buffer != []
    ensures c.inState.Active?
    ensures IsTail(c.buffer[0]) ==> c.buffer[1..] == []
    ensures var k := c.buffer[0];
      VcInv(c.(buffer := c.buffer[1..], drained := c.drained + [k], inState := if IsTail(k) then Idle else c.inState),
            w, r + [IsTail(k)], depth)
  {
    hide Flatten, IsTail, IsHead;
    var k, b := c.buffer[0], c.buffer[1..];
    var f, g := c.buffer + w + c.pending, b + w + c.pending;
    assert f[0] == k && g == f[1..];
    assert c.drained + [k] + b + w + c.pending == c.drained + c.buffer + w + c.pending;
    if IsTail(k) {
      assert |f| == 1;
    } else {
      assert |f| > 1;
      RemainderTail(f);
    }
  }

  lemma RemainderTail(f: seq<Flit>)
    requires Remainder(f) && |f| > 1
    ensures Remainder(f[1..]) && forall i :: 0 <= i < |f| - 1 ==> !IsHead(f[1..][i])
  {}

  lemma VcCredit(c: Vc, w: seq<Flit>, x: bool, r: seq<bool>, depth: nat)
    requires VcInv(c, w, [x] + r, depth)
    ensures c.credits + 1 <= depth
    ensures VcInv(c.(credits := c.credits + 1, out := if x then Idle else c.out), w, r, depth)
  {
    hide Flatten, IsTail, IsHead, Remainder;
    var q := [x] + r;
    assert q[0] == x && q[|q| - 1] == if r == [] then x else r[|r| - 1];
    assert forall i :: 0 <= i < |r| ==> r[i] == q[i + 1];
  }

  // ----- a step on one channel leaves the others alone

  lemma {:induction false} FlitsAppend(w: seq<Wired>, f: Wired, v: nat)
    ensures FlitsOf(w + [f], v) == if f.vc == v then FlitsOf(w, v) + [f.flit] else FlitsOf(w, v)
  {
    if w == [] {
      assert w + [f] == [f];
    } else {
      FlitsAppend(w[1..], f, v);
      assert (w + [f])[1..] == w[1..] + [f];
    }
  }

  lemma {:induction false} FreesAppend(w: seq<Credit>, f: Credit, v: nat)
    ensures FreesOf(w + [f], v) == if f.vc == v then FreesOf(w, v) + [f.isFree] else FreesOf(w, v)
  {
    if w == [] {
      assert w + [f] == [f];
    } else {
      FreesAppend(w[1..], f, v);
      assert (w + [f])[1..] == w[1..] + [f];
    }
  }

  lemma StepKeepsVc(s: Link, step: Step, depth: seq<nat>, v: nat)
    requires Inv(s, depth) && Enabled(s, step) && v < |depth|
    ensures var t := Next(s, step);
      |t.vcs| == |s.vcs| && ValidVcs(t) &&
      VcInv(t.vcs[v], FlitsOf(t.wire, v), FreesOf(t.creditWire, v), depth[v])
  {
    hide VcInv, Packet, IsTail, IsHead, FlitsOf, FreesOf;
    var c, w, r := s.vcs[v], FlitsOf(s.wire, v), FreesOf(s.creditWire, v);
    match step
    case RouterAllocate(u, m) =>
      FlitsAppend(s.wire, Wired(u, Packet(m)[0]), v);
      if u == v { VcRouterAllocate(c, w, r, depth[v], m); }
    case NiAllocate(u, m) =>
      if u == v { VcNiAllocate(c, w, r, depth[v], m); }
    case Send(u) =>
      FlitsAppend(s.wire, Wired(u, s.vcs[u].pending[0]), v);
      if u == v { VcSend(c, w, r, depth[v]); }
    case Arrive =>
      FlitsFirst(s.wire, v);
      if s.wire[0].vc == v { VcArrive(c, s.wire[0].flit, FlitsOf(s.wire[1..], v), r, depth[v]); }
    case Drain(u) =>
      FreesAppend(s.creditWire, Credit(u, IsTail(s.vcs[u].buffer[0])), v);
      if u == v { VcDrain(c, w, r, depth[v]); }
    case CreditArrive =>
      FreesFirst(s.creditWire, v);
      if s.creditWire[0].vc == v { VcCredit(c, w, s.creditWire[0].isFree, FreesOf(s.creditWire[1..], v), depth[v]); }
  }

  lemma FlitsFirst(w: seq<Wired>, v: nat)
    requires w != []
    ensures FlitsOf(w, v) == if w[0].vc == v then [w[0].flit] + FlitsOf(w[1..], v) else FlitsOf(w[1..], v)
  {}

  lemma FreesFirst(w: seq<Credit>, v: nat)
    requires w != []
    ensures FreesOf(w, v) == if w[0].vc == v then [w[0].isFree] + FreesOf(w[1..], v) else FreesOf(w[1..], v)
  {}

  // ----- safety of every run

  /** Every enabled step passes the source's assertions and keeps the invariant. */
  lemma StepIsSafe(s: Link, step: Step, depth: seq<nat>)
    requires Inv(s, depth) && Enabled(s, step)
    ensures Asserts(s, step, depth)
    ensures Inv(Next(s, step), depth)
  {
    hide VcInv, Packet, IsTail, IsHead, FlitsOf, FreesOf, Next;
    var t := Next(s, step);
    if |depth| > 0 { StepKeepsVc(s, step, depth, 0); }
    assert |t.vcs| == |s.vcs| && ValidVcs(t) by { NextShape(s, step); }
    forall v | 0 <= v < |depth|
      ensures VcInv(t.vcs[v], FlitsOf(t.wire, v), FreesOf(t.creditWire, v), depth[v])
    {
      StepKeepsVc(s, step, depth, v);
    }
    match step
    case RouterAllocate(u, m) =>
      VcRouterAllocate(s.vcs[u], FlitsOf(s.wire, u), FreesOf(s.creditWire, u), depth[u], m);
    case NiAllocate(u, m) =>
    case Send(u) =>
      VcSend(s.vcs[u], FlitsOf(s.wire, u), FreesOf(s.creditWire, u), depth[u]);
    case Arrive =>
      var f := s.wire[0];
      FlitsFirst(s.wire, f.vc);
      VcArrive(s.vcs[f.vc], f.flit, FlitsOf(s.wire[1..], f.vc), FreesOf(s.creditWire, f.vc), depth[f.vc]);
    case Drain(u) =>
      VcDrain(s.vcs[u], FlitsOf(s.wire, u), FreesOf(s.creditWire, u), depth[u]);
    case CreditArrive =>
      var c := s.creditWire[0];
      FreesFirst(s.creditWire, c.vc);
      VcCredit(s.vcs[c.vc], FlitsOf(s.wire, c.vc), c.isFree, FreesOf(s.creditWire[1..], c.vc), depth[c.vc]);
  }

  lemma NextShape(s: Link, step: Step)
    requires ValidVcs(s) && Enabled(s, step)
    ensures |Next(s, step).vcs| == |s.vcs| && ValidVcs(Next(s, step))
  {}

  lemma InitInv(depth: seq<nat>)
    requires forall v :: 0 <= v < |depth| ==> depth[v] >= 1
    ensures Inv(Init(depth), depth)
  {}

  lemma {:induction false} RunKeepsInv(s: Link, steps: seq<Step>, depth: seq<nat>)
    requires Inv(s, depth) && IsRun(s, steps)
    ensures Inv(After(s, steps), depth)
    decreases |steps|
  {
    hide Inv, Enabled, Next;
    if steps != [] {
      InvValid(s, depth);
      StepIsSafe(s, steps[0], depth);
      RunKeepsInv(Next(s, steps[0]), steps[1..], depth);
    }
  }

  lemma InvValid(s: Link, depth: seq<nat>)
    requires Inv(s, depth)
    ensures ValidVcs(s) && |depth| == |s.vcs|
  {}

  /** Over every run from the initial state: no assertion of the source fails
      at the next step, no buffer holds more flits than its depth, every credit
      is accounted for, and what has left each channel is a prefix of the
      packets given to it, whole and in order. */
  lemma RunsAreSafe(depth: seq<nat>, steps: seq<Step>)
    requires forall v :: 0 <= v < |depth| ==> depth[v] >= 1
    requires IsRun(Init(depth), steps)
    ensures var s := After(Init(depth), steps);
      && |s.vcs| == |depth| && ValidVcs(s)
      && (forall step :: Enabled(s, step) ==> Asserts(s, step, depth))
      && (forall v :: 0 <= v < |depth| ==>
            && 0 <= s.vcs[v].credits <= depth[v] && |s.vcs[v].buffer| <= depth[v]
            && s.vcs[v].credits + |FlitsOf(s.wire, v)| + |s.vcs[v].buffer| + |FreesOf(s.creditWire, v)| == depth[v]
            && s.vcs[v].drained <= Flatten(s.vcs[v].packets))
  {
    hide Asserts, Enabled, FlitsOf, FreesOf, Flatten, After, IsRun, Init;
    InitInv(depth);
    RunKeepsInv(Init(depth), steps, depth);
    var s := After(Init(depth), steps);
    forall step | Enabled(s, step) ensures Asserts(s, step, depth) {
      StepIsSafe(s, step, depth);
    }
    forall v | 0 <= v < |depth| ensures s.vcs[v].drained <= Flatten(s.vcs[v].packets) {
      var c, w := s.vcs[v], FlitsOf(s.wire, v);
      assert c.drained + c.buffer + w + c.pending == c.drained + (c.buffer + w + c.pending);
    }
  }

  // ----- progress

  predicate IsAllocation(step: Step) {
    step.RouterAllocate? || step.NiAllocate?
  }

  /** A bound on the work left: how many more steps flits and credits need. */
  function Work(s: Link): nat {
    SumWork(s.vcs) + 3 * |s.wire| + |s.creditWire|
  }

  function SumWork(vcs: seq<Vc>): nat {
    if vcs == [] then 0
    else SumWork(vcs[..|vcs| - 1]) + VcWork(vcs[|vcs| - 1])
  }

  function VcWork(c: Vc): nat {
    4 * |c.pending| + 2 * |c.buffer|
  }

  lemma {:induction false} SumWorkUpdate(vcs: seq<Vc>, v: nat, c: Vc)
    requires v < |vcs|
    ensures SumWork(vcs[v := c]) == SumWork(vcs) - VcWork(vcs[v]) + VcWork(c)
    decreases |vcs|
  {
    hide VcWork;
    var n := |vcs| - 1;
    if v == n {
      assert vcs[v := c][..n] == vcs[..n];
    } else {
      assert vcs[v := c][..n] == vcs[..n][v := c];
      SumWorkUpdate(vcs[..n], v, c);
    }
  }

  /** Every step but the allocation of a new packet uses up work. */
  lemma StepsUseWork(s: Link, step: Step)
    requires ValidVcs(s) && Enabled(s, step) && !IsAllocation(step)
    ensures Work(Next(s, step)) < Work(s)
  {
    hide SumWork, IsTail, IsHead;
    var t := Next(s, step);
    match step
    case Send(v) => SumWorkUpdate(s.vcs, v, t.vcs[v]);
    case Arrive => SumWorkUpdate(s.vcs, s.wire[0].vc, t.vcs[s.wire[0].vc]);
    case Drain(v) => SumWorkUpdate(s.vcs, v, t.vcs[v]);
    case CreditArrive => SumWorkUpdate(s.vcs, s.creditWire[0].vc, t.vcs[s.creditWire[0].vc]);
  }

  ghost predicate Quiet(s: Link) {
    forall step :: Enabled(s, step) ==> IsAllocation(step)
  }

  /** A link is never stuck with a packet half way: when nothing but a new
      packet can move, every channel is idle, has all its credits, and has
      delivered every packet it was given. */
  lemma QuietMeansDelivered(s: Link, depth: seq<nat>)
    requires Inv(s, depth) && Quiet(s)
    ensures forall v :: 0 <= v < |depth| ==>
      && s.vcs[v].out.Idle? && s.vcs[v].inState.Idle?
      && s.vcs[v].credits == depth[v]
      && s.vcs[v].drained == Flatten(s.vcs[v].packets)
  {
    hide Flatten, Remainder;
    assert !Enabled(s, Arrive) && !Enabled(s, CreditArrive);
    forall v | 0 <= v < |depth|
      ensures s.vcs[v].out.Idle? && s.vcs[v].inState.Idle? && s.vcs[v].credits == depth[v]
      ensures s.vcs[v].drained == Flatten(s.vcs[v].packets)
    {
      var c := s.vcs[v];
      assert VcInv(c, [], [], depth[v]);
      assert !Enabled(s, Send(v)) && !Enabled(s, Drain(v));
      assert c.buffer == [];
      assert c.pending == [];
      assert c.drained + c.buffer + [] + c.pending == c.drained;
    }
  }

  /** From any reachable state, a run without new packets is no longer than the
      work left. */
  lemma {:induction false} RunsEnd(s: Link, steps: seq<Step>, depth: seq<nat>)
    requires Inv(s, depth) && IsRun(s, steps)
    requires forall i :: 0 <= i < |steps| ==> !IsAllocation(steps[i])
    ensures |steps| <= Work(s)
    decreases |steps|
  {
    hide Inv, Enabled, Next, Work;
    if steps != [] {
      InvValid(s, depth);
      StepIsSafe(s, steps[0], depth);
      StepsUseWork(s, steps[0]);
      RunsEnd(Next(s, steps[0]), steps[1..], depth);
    }
  }

  /** Every channel is idle with all its credits and has delivered what it was
      given. */
  ghost predicate Delivered(s: Link, depth: seq<nat>) {
    && |s.vcs| == |depth|
    && forall v :: 0 <= v < |depth| ==>
         && s.vcs[v].out.Idle? && s.vcs[v].inState.Idle? && s.vcs[v].credits == depth[v]
         && s.vcs[v].drained == Flatten(s.vcs[v].packets)
  }

  ghost predicate NoNewPackets(steps: seq<Step>) {
    forall i :: 0 <= i < |steps| ==> !IsAllocation(steps[i])
  }

  /** The packets given to the channels. */
  function Packets(s: Link): (p: seq<seq<Message>>)
    ensures |p| == |s.vcs|
  {
    seq(|s.vcs|, v requires 0 <= v < |s.vcs| => s.vcs[v].packets)
  }

  lemma StepKeepsPackets(s: Link, step: Step)
    requires ValidVcs(s) && Enabled(s, step) && !IsAllocation(step)
    ensures Packets(Next(s, step)) == Packets(s)
  {
    hide IsTail, IsHead;
  }

  /** Any run without new packets, from any state that satisfies the invariant, can
      be carried on to the delivery of every packet, within the work it started
      with. */
  lemma {:induction false} RunsDeliver(s: Link, steps: seq<Step>, depth: seq<nat>) returns (more: seq<Step>)
    requires Inv(s, depth) && IsRun(s, steps) && NoNewPackets(steps)
    ensures steps <= more && IsRun(s, more) && NoNewPackets(more) && |more| <= Work(s)
    ensures Delivered(After(s, more), depth) && Packets(After(s, more)) == Packets(s)
    decreases Work(s)
  {
    hide Inv, Enabled, Next, Work, Packets, Delivered, IsAllocation;
    InvValid(s, depth);
    var step: Step;
    if steps != [] {
      step := steps[0];
      assert !IsAllocation(steps[0]);
    } else if Quiet(s) {
      more := [];
      QuietDelivers(s, depth);
      return;
    } else {
      step :| Enabled(s, step) && !IsAllocation(step);
    }
    StepIsSafe(s, step, depth);
    StepsUseWork(s, step);
    StepKeepsPackets(s, step);
    var rest := if steps == [] then [] else steps[1..];
    var tail := RunsDeliver(Next(s, step), rest, depth);
    more := [step] + tail;
    assert more[1..] == tail;
  }

  lemma QuietDelivers(s: Link, depth: seq<nat>)
    requires Inv(s, depth) && Quiet(s)
    ensures Delivered(s, depth)
  {
    hide VcInv, Flatten, Enabled;
    QuietMeansDelivered(s, depth);
  }
}
