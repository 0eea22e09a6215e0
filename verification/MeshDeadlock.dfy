/** A mesh of routers as a whole: packets cross it flit by flit, every link and every
    local port has a fixed number of VCs per virtual network, and a packet keeps a VC
    from the arrival of its head to the departure of its tail.  When can the network
    come to a standstill? */
module MeshDeadlock {
  import opened Wrappers
  import opened MeshRouting

  // ----- packets and the buffers they pass

  /** A set of VCs: at the local input port of a router, at the far end of a link, or
      at the network interface that ejects. */
  datatype Buffer = Inject(at: Pos) | Link(channel: Channel) | Eject(at: Pos)

  datatype Packet = Packet(path: seq<Pos>, vnet: nat, size: nat)

  predicate Sound(p: Packet) {
    p.path != [] && p.size >= 1
  }

  function Heading(a: Pos, b: Pos): Dir {
    if b.x > a.x then East else if b.x < a.x then West else if b.y > a.y then North else South
  }

  /** The buffers a packet passes are numbered 0 .. |path|. */
  function BufferAt(p: Packet, j: nat): Buffer
    requires p.path != [] && j <= |p.path|
  {
    if j == 0 then Inject(p.path[0])
    else if j == |p.path| then Eject(p.path[j - 1])
    else Link(Channel(p.path[j - 1], Heading(p.path[j - 1], p.path[j])))
  }

  // ----- states

  /** Where the flits of each packet are: 0 is the queue of the source, j + 1 is buffer
      j of the packet, and the number after the last buffer means delivered. */
  type Places = seq<seq<nat>>

  function Arrived(p: Packet): nat {
    |p.path| + 2
  }

  /** Flits of a packet stay in order. */
  ghost predicate InOrder(at: seq<nat>) {
    forall k, l :: 0 <= k < l < |at| ==> at[k] >= at[l]
  }

  ghost predicate PacketPlaced(p: Packet, at: seq<nat>) {
    Sound(p) && |at| == p.size && InOrder(at) && at[0] <= Arrived(p)
  }

  ghost predicate Placed(net: seq<Packet>, st: Places) {
    |st| == |net| && forall q :: 0 <= q < |net| ==> PacketPlaced(net[q], st[q])
  }

  /** The packet has a VC of buffer j: its head has come and its tail has not left. */
  predicate Occupies(at: seq<nat>, j: nat)
    requires at != []
  {
    at[|at| - 1] <= j + 1 <= at[0]
  }

  ghost predicate Uses(p: Packet, at: seq<nat>, b: Buffer, vnet: nat)
    requires PacketPlaced(p, at)
  {
    p.vnet == vnet && exists j: nat :: j <= |p.path| && BufferAt(p, j) == b && Occupies(at, j)
  }

  /** How many of the first n packets do. */
  ghost function Users(net: seq<Packet>, st: Places, b: Buffer, vnet: nat, n: nat): (u: nat)
    requires Placed(net, st) && n <= |net|
    ensures u > 0 ==> exists q :: 0 <= q < n && Uses(net[q], st[q], b, vnet)
  {
    if n == 0 then 0
    else Users(net, st, b, vnet, n - 1) + if Uses(net[n - 1], st[n - 1], b, vnet) then 1 else 0
  }

  function Count(at: seq<nat>, x: nat): (n: nat)
    ensures n > 0 ==> x in at
  {
    if at == [] then 0 else (if at[0] == x then 1 else 0) + Count(at[1..], x)
  }

  // ----- hops

  datatype Hop = Hop(packet: nat, flit: nat)

  /** The flit is the next of its packet in its buffer. */
  ghost predicate Ready(net: seq<Packet>, st: Places, m: Hop)
    requires Placed(net, st)
  {
    && m.packet < |net| && m.flit < net[m.packet].size
    && st[m.packet][m.flit] < Arrived(net[m.packet])
    && (m.flit > 0 ==> st[m.packet][m.flit - 1] > st[m.packet][m.flit])
  }

  /** A head needs a free VC, any other flit a free place in the VC of its packet; the
      destination always accepts. */
  ghost predicate Enabled(net: seq<Packet>, st: Places, m: Hop, vcs: nat, depth: nat)
    requires Placed(net, st)
  {
    && Ready(net, st, m)
    && var p, at := net[m.packet], st[m.packet];
       var x := at[m.flit];
       if x > |p.path| then true
       else if m.flit == 0 then Users(net, st, BufferAt(p, x), p.vnet, |net|) < vcs
       else Count(at, x + 1) < depth
  }

  function Advance(st: Places, m: Hop): (r: Places)
    requires m.packet < |st| && m.flit < |st[m.packet]|
    ensures |r| == |st|
  {
    st[m.packet := st[m.packet][m.flit := st[m.packet][m.flit] + 1]]
  }

  lemma AdvanceKeepsPlaced(net: seq<Packet>, st: Places, m: Hop)
    requires Placed(net, st) && Ready(net, st, m)
    ensures Placed(net, Advance(st, m))
  {}

  // ----- what every move keeps

  /** No buffer holds more packets than it has VCs and no VC more flits than it has
      places. */
  ghost predicate Within(net: seq<Packet>, st: Places, vcs: nat, depth: nat)
    requires Placed(net, st)
  {
    && (forall b, vnet :: Users(net, st, b, vnet, |net|) <= vcs)
    && (forall q, j :: 0 <= q < |net| && 1 <= j < Arrived(net[q]) ==> Count(st[q], j) <= depth)
  }

  ghost predicate Delivered(net: seq<Packet>, st: Places)
    requires Placed(net, st)
  {
    forall q, k :: 0 <= q < |net| && 0 <= k < |st[q]| ==> st[q][k] == Arrived(net[q])
  }

  // ----- routes that climb

  function Top(rows: nat, cols: nat): nat {
    rows + cols + 3
  }

  /** The local ports are the ends of the order of channels. */
  function Level(b: Buffer, rows: nat, cols: nat): int {
    match b
    case Inject(_) => 0
    case Link(c) => 1 + Rank(c, rows, cols)
    case Eject(_) => Top(rows, cols)
  }

  ghost predicate Climbs(p: Packet, rows: nat, cols: nat)
    requires p.path != []
  {
    forall i: nat, j: nat :: i < j <= |p.path| ==> Level(BufferAt(p, i), rows, cols) < Level(BufferAt(p, j), rows, cols)
  }

  ghost predicate AllClimb(net: seq<Packet>, rows: nat, cols: nat) {
    forall q :: 0 <= q < |net| ==> Sound(net[q]) && Climbs(net[q], rows, cols)
  }

  /** How much higher the head of a packet can still get. */
  function Ahead(p: Packet, at: seq<nat>, rows: nat, cols: nat): int
    requires p.path != [] && at != [] && at[0] < Arrived(p)
  {
    Top(rows, cols) - if at[0] == 0 then -1 else Level(BufferAt(p, at[0] - 1), rows, cols)
  }

  /** The first flit of a packet that has not arrived. */
  lemma {:induction false} Leader(p: Packet, at: seq<nat>) returns (k: nat)
    requires PacketPlaced(p, at) && at[|at| - 1] < Arrived(p)
    ensures k < |at| && at[k] < Arrived(p) && forall l :: 0 <= l < k ==> at[l] == Arrived(p)
  {
    k := 0;
    while at[k] == Arrived(p)
      invariant k < |at| && forall l :: 0 <= l < k ==> at[l] == Arrived(p)
      decreases |at| - k
    {
      k := k + 1;
    }
  }

  lemma CountNone(at: seq<nat>, x: nat)
    requires x !in at
    ensures Count(at, x) == 0
  {}

  /** Once the head has arrived the rest follows freely. */
  lemma FollowerMoves(net: seq<Packet>, st: Places, q: nat, k: nat, vcs: nat, depth: nat)
    requires Placed(net, st) && q < |net| && 0 < k < |st[q]| && depth >= 1
    requires st[q][k] < Arrived(net[q]) && forall l :: 0 <= l < k ==> st[q][l] == Arrived(net[q])
    ensures Enabled(net, st, Hop(q, k), vcs, depth)
  {
    var x := st[q][k];
    assert x + 1 < Arrived(net[q]) ==> x + 1 !in st[q];
    if x + 1 < Arrived(net[q]) { CountNone(st[q], x + 1); }
  }

  /** Whatever waits for a buffer waits for a packet that is further up. */
  lemma BlockerIsHigher(p: Packet, at: seq<nat>, q: Packet, at': seq<nat>, rows: nat, cols: nat)
    requires PacketPlaced(p, at) && PacketPlaced(q, at') && Climbs(p, rows, cols) && Climbs(q, rows, cols)
    requires at[0] <= |p.path| && at'[0] < Arrived(q) && Uses(q, at', BufferAt(p, at[0]), p.vnet)
    ensures 0 <= Ahead(q, at', rows, cols) < Ahead(p, at, rows, cols)
  {
    hide BufferAt, Level;
    var j: nat :| j <= |q.path| && BufferAt(q, j) == BufferAt(p, at[0]) && Occupies(at', j);
    LevelBounds(q, at'[0] - 1, rows, cols);
    LevelBounds(p, at[0], rows, cols);
    if at[0] > 0 { assert at[0] - 1 < at[0] <= |p.path|; }
    if j < at'[0] - 1 { assert j < at'[0] - 1 <= |q.path|; }
  }

  lemma LevelBounds(p: Packet, j: nat, rows: nat, cols: nat)
    requires p.path != [] && Climbs(p, rows, cols) && j <= |p.path|
    ensures 0 <= Level(BufferAt(p, j), rows, cols) <= Top(rows, cols)
  {
    assert Level(BufferAt(p, 0), rows, cols) == 0;
    assert Level(BufferAt(p, |p.path|), rows, cols) == Top(rows, cols);
  }

  lemma AheadIsNat(p: Packet, at: seq<nat>, rows: nat, cols: nat)
    requires PacketPlaced(p, at) && Climbs(p, rows, cols) && at[0] < Arrived(p)
    ensures Ahead(p, at, rows, cols) >= 0
  {
    if at[0] > 0 { LevelBounds(p, at[0] - 1, rows, cols); }
  }

  lemma UserIsUnderway(p: Packet, at: seq<nat>, b: Buffer, vnet: nat)
    requires PacketPlaced(p, at) && Uses(p, at, b, vnet)
    ensures at[|at| - 1] < Arrived(p)
  {}

  /** Following what a packet waits for leads to a move that can be made. */
  lemma {:induction false} FindMove(net: seq<Packet>, st: Places, q: nat, rows: nat, cols: nat, vcs: nat, depth: nat)
    returns (m: Hop)
    requires Placed(net, st) && AllClimb(net, rows, cols) && vcs >= 1 && depth >= 1
    requires q < |net| && st[q][|st[q]| - 1] < Arrived(net[q])
    ensures Enabled(net, st, m, vcs, depth)
    decreases if st[q][0] < Arrived(net[q]) then 1 + Ahead(net[q], st[q], rows, cols) else 0
  {
    hide Ahead, BufferAt, Climbs, Uses;
    var k := Leader(net[q], st[q]);
    if k > 0 {
      FollowerMoves(net, st, q, k, vcs, depth);
      return Hop(q, k);
    }
    m := Hop(q, 0);
    if !Enabled(net, st, m, vcs, depth) {
      var b := BufferAt(net[q], st[q][0]);
      var r :| 0 <= r < |net| && Uses(net[r], st[r], b, net[q].vnet);
      AheadIsNat(net[q], st[q], rows, cols);
      UserIsUnderway(net[r], st[r], b, net[q].vnet);
      if st[r][0] < Arrived(net[r]) { BlockerIsHigher(net[q], st[q], net[r], st[r], rows, cols); }
      m := FindMove(net, st, r, rows, cols, vcs, depth);
    }
  }

  /** In a network whose routes climb, something can always move until every flit is
      delivered: in any state, with any number of VCs and places. */
  lemma NeverStuck(net: seq<Packet>, st: Places, rows: nat, cols: nat, vcs: nat, depth: nat)
    requires Placed(net, st) && AllClimb(net, rows, cols) && vcs >= 1 && depth >= 1
    ensures Delivered(net, st) || exists m :: Enabled(net, st, m, vcs, depth)
  {
    if q, k :| 0 <= q < |net| && 0 <= k < |st[q]| && st[q][k] != Arrived(net[q]) {
      assert st[q][k] <= st[q][0] && st[q][|st[q]| - 1] <= st[q][k];
      var m := FindMove(net, st, q, rows, cols, vcs, depth);
    }
  }

  // ----- runs

  ghost predicate Run(net: seq<Packet>, st: Places, hops: seq<Hop>, vcs: nat, depth: nat)
    requires Placed(net, st)
    decreases |hops|
  {
    hops == [] ||
    (Enabled(net, st, hops[0], vcs, depth) &&
     (AdvanceKeepsPlaced(net, st, hops[0]); Run(net, Advance(st, hops[0]), hops[1..], vcs, depth)))
  }

  ghost function Final(net: seq<Packet>, st: Places, hops: seq<Hop>, vcs: nat, depth: nat): (r: Places)
    requires Placed(net, st) && Run(net, st, hops, vcs, depth)
    ensures Placed(net, r)
    decreases |hops|
  {
    if hops == [] then st else
      AdvanceKeepsPlaced(net, st, hops[0]);
      Final(net, Advance(st, hops[0]), hops[1..], vcs, depth)
  }

  lemma {:induction false} RunConcat(net: seq<Packet>, st: Places, a: seq<Hop>, b: seq<Hop>, vcs: nat, depth: nat)
    requires Placed(net, st) && Run(net, st, a, vcs, depth) && Run(net, Final(net, st, a, vcs, depth), b, vcs, depth)
    ensures Run(net, st, a + b, vcs, depth)
    ensures Final(net, st, a + b, vcs, depth) == Final(net, Final(net, st, a, vcs, depth), b, vcs, depth)
    decreases |a|
  {
    hide Users, Advance;
    if a == [] {
      assert a + b == b;
    } else {
      AdvanceKeepsPlaced(net, st, a[0]);
      RunConcat(net, Advance(st, a[0]), a[1..], b, vcs, depth);
      assert (a + b)[1..] == a[1..] + b;
    }
  }

  /** Every flit still at its source. */
  function Fresh(net: seq<Packet>): (st: Places) {
    seq(|net|, q requires 0 <= q < |net| => seq(net[q].size, k => 0))
  }

  lemma FreshIsPlaced(net: seq<Packet>)
    requires forall q :: 0 <= q < |net| ==> Sound(net[q])
    ensures Placed(net, Fresh(net))
  {}

  // ----- no run overfills a buffer

  lemma {:induction false} CountUpdate(at: seq<nat>, k: nat, y: nat, z: nat)
    requires k < |at|
    ensures Count(at[k := y], z) + (if at[k] == z then 1 else 0) == Count(at, z) + if y == z then 1 else 0
  {
    if k == 0 {
      assert at[k := y][1..] == at[1..];
    } else {
      CountUpdate(at[1..], k - 1, y, z);
      assert at[k := y][1..] == at[1..][k - 1 := y];
    }
  }

  /** The move lets a head into buffer b. */
  ghost predicate Enters(net: seq<Packet>, st: Places, m: Hop, b: Buffer, vnet: nat)
    requires Placed(net, st) && Ready(net, st, m)
  {
    var p, x := net[m.packet], st[m.packet][m.flit];
    m.flit == 0 && x <= |p.path| && BufferAt(p, x) == b && p.vnet == vnet
  }

  lemma NewUser(net: seq<Packet>, st: Places, m: Hop, b: Buffer, vnet: nat)
    requires Placed(net, st) && Ready(net, st, m) && Placed(net, Advance(st, m))
    requires Uses(net[m.packet], Advance(st, m)[m.packet], b, vnet)
    ensures Uses(net[m.packet], st[m.packet], b, vnet) || Enters(net, st, m, b, vnet)
  {
    hide BufferAt;
    var p, at, at' := net[m.packet], st[m.packet], Advance(st, m)[m.packet];
    var j: nat :| j <= |p.path| && BufferAt(p, j) == b && Occupies(at', j);
    assert Occupies(at, j) || Enters(net, st, m, b, vnet);
  }

  lemma {:induction false} UsersStep(net: seq<Packet>, st: Places, m: Hop, b: Buffer, vnet: nat, n: nat)
    requires Placed(net, st) && Ready(net, st, m) && Placed(net, Advance(st, m)) && n <= |net|
    ensures Users(net, Advance(st, m), b, vnet, n) <=
      Users(net, st, b, vnet, n) + if m.packet < n && Enters(net, st, m, b, vnet) then 1 else 0
  {
    hide Enters, Uses;
    if n > 0 {
      UsersStep(net, st, m, b, vnet, n - 1);
      if n - 1 == m.packet {
        if Uses(net[n - 1], Advance(st, m)[n - 1], b, vnet) { NewUser(net, st, m, b, vnet); }
      } else {
        assert Advance(st, m)[n - 1] == st[n - 1];
      }
    }
  }

  lemma PlacesKept(net: seq<Packet>, st: Places, m: Hop, q: nat, j: nat, vcs: nat, depth: nat)
    requires Placed(net, st) && Within(net, st, vcs, depth) && Enabled(net, st, m, vcs, depth) && depth >= 1
    requires q < |net| && 1 <= j < Arrived(net[q])
    ensures Count(Advance(st, m)[q], j) <= depth
  {
    hide Users;
    if q == m.packet {
      var x := st[q][m.flit];
      CountUpdate(st[q], m.flit, x + 1, j);
      if m.flit == 0 && j == x + 1 {
        assert x + 1 !in st[q];
        CountNone(st[q], x + 1);
      }
    }
  }

  /** What a move keeps. */
  lemma MoveKeepsWithin(net: seq<Packet>, st: Places, m: Hop, vcs: nat, depth: nat)
    requires Placed(net, st) && Within(net, st, vcs, depth) && Enabled(net, st, m, vcs, depth) && depth >= 1
    ensures Placed(net, Advance(st, m)) && Within(net, Advance(st, m), vcs, depth)
  {
    hide Advance, Count, Users;
    AdvanceKeepsPlaced(net, st, m);
    forall b, vnet ensures Users(net, Advance(st, m), b, vnet, |net|) <= vcs {
      UsersStep(net, st, m, b, vnet, |net|);
    }
    forall q, j | 0 <= q < |net| && 1 <= j < Arrived(net[q]) ensures Count(Advance(st, m)[q], j) <= depth {
      PlacesKept(net, st, m, q, j, vcs, depth);
    }
  }

  lemma {:induction false} FreshIsWithin(net: seq<Packet>, vcs: nat, depth: nat)
    requires forall q :: 0 <= q < |net| ==> Sound(net[q])
    ensures Placed(net, Fresh(net)) && Within(net, Fresh(net), vcs, depth)
  {
    FreshIsPlaced(net);
    forall b, vnet ensures Users(net, Fresh(net), b, vnet, |net|) <= vcs {
      assert forall q :: 0 <= q < |net| ==> !Uses(net[q], Fresh(net)[q], b, vnet);
    }
    forall q, j: nat | 0 <= q < |net| && 1 <= j < Arrived(net[q]) ensures Count(Fresh(net)[q], j) <= depth {
      CountNone(Fresh(net)[q], j);
    }
  }

  lemma {:induction false} RunKeepsWithin(net: seq<Packet>, st: Places, hops: seq<Hop>, vcs: nat, depth: nat)
    requires Placed(net, st) && Within(net, st, vcs, depth) && Run(net, st, hops, vcs, depth) && depth >= 1
    ensures Within(net, Final(net, st, hops, vcs, depth), vcs, depth)
    decreases |hops|
  {
    hide Within, Users, Advance;
    if hops != [] {
      MoveKeepsWithin(net, st, hops[0], vcs, depth);
      RunKeepsWithin(net, Advance(st, hops[0]), hops[1..], vcs, depth);
    }
  }

  /** In every run, from the empty network, no buffer holds more packets than VCs and
      no VC more flits than places. */
  lemma RunsStayWithin(net: seq<Packet>, hops: seq<Hop>, vcs: nat, depth: nat)
    requires (forall q :: 0 <= q < |net| ==> Sound(net[q])) && depth >= 1
    requires Placed(net, Fresh(net)) && Run(net, Fresh(net), hops, vcs, depth)
    ensures Within(net, Final(net, Fresh(net), hops, vcs, depth), vcs, depth)
  {
    hide Within, Run, Final;
    FreshIsWithin(net, vcs, depth);
    RunKeepsWithin(net, Fresh(net), hops, vcs, depth);
  }

  // ----- every run ends, and where it ends everything is delivered

  function FlitWork(at: seq<nat>, end: nat): nat {
    if at == [] then 0 else (if at[0] < end then end - at[0] else 0) + FlitWork(at[1..], end)
  }

  /** The hops still to be made. */
  function Work(net: seq<Packet>, st: Places): nat
    requires |net| == |st|
  {
    if net == [] then 0 else FlitWork(st[0], Arrived(net[0])) + Work(net[1..], st[1..])
  }

  lemma {:induction false} FlitWorkStep(at: seq<nat>, end: nat, k: nat)
    requires k < |at| && at[k] < end
    ensures FlitWork(at[k := at[k] + 1], end) == FlitWork(at, end) - 1
  {
    if k == 0 {
      assert at[k := at[k] + 1][1..] == at[1..];
    } else {
      FlitWorkStep(at[1..], end, k - 1);
      assert at[k := at[k] + 1][1..] == at[1..][k - 1 := at[k] + 1];
    }
  }

  lemma {:induction false} WorkStep(net: seq<Packet>, st: Places, m: Hop)
    requires |net| == |st| && m.packet < |st| && m.flit < |st[m.packet]|
    requires st[m.packet][m.flit] < Arrived(net[m.packet])
    ensures Work(net, Advance(st, m)) == Work(net, st) - 1
    decreases |net|
  {
    if m.packet == 0 {
      FlitWorkStep(st[0], Arrived(net[0]), m.flit);
      assert Advance(st, m)[1..] == st[1..];
    } else {
      var m' := Hop(m.packet - 1, m.flit);
      WorkStep(net[1..], st[1..], m');
      assert Advance(st, m)[1..] == Advance(st[1..], m');
    }
  }

  lemma {:induction false} RunUsesWork(net: seq<Packet>, st: Places, hops: seq<Hop>, vcs: nat, depth: nat)
    requires Placed(net, st) && Run(net, st, hops, vcs, depth)
    ensures Work(net, Final(net, st, hops, vcs, depth)) == Work(net, st) - |hops|
    decreases |hops|
  {
    hide Work, Advance;
    if hops != [] {
      WorkStep(net, st, hops[0]);
      AdvanceKeepsPlaced(net, st, hops[0]);
      RunUsesWork(net, Advance(st, hops[0]), hops[1..], vcs, depth);
    }
  }

  lemma {:induction false} Finish(net: seq<Packet>, st: Places, rows: nat, cols: nat, vcs: nat, depth: nat)
    returns (hops: seq<Hop>)
    requires Placed(net, st) && AllClimb(net, rows, cols) && vcs >= 1 && depth >= 1
    ensures Run(net, st, hops, vcs, depth) && Delivered(net, Final(net, st, hops, vcs, depth))
    decreases Work(net, st)
  {
    hide Work, Advance, Delivered, AllClimb;
    hops := [];
    if !Delivered(net, st) {
      NeverStuck(net, st, rows, cols, vcs, depth);
      var m :| Enabled(net, st, m, vcs, depth);
      WorkStep(net, st, m);
      AdvanceKeepsPlaced(net, st, m);
      var rest := Finish(net, Advance(st, m), rows, cols, vcs, depth);
      hops := [m] + rest;
      assert hops[1..] == rest;
    }
  }

  // ----- XY routing

  /** The packet takes the XY route between two routers of the mesh. */
  ghost predicate XyPacket(p: Packet, rows: nat, cols: nat) {
    p.size >= 1 && exists src, dest :: InMesh(src, rows, cols) && InMesh(dest, rows, cols) && p.path == XyPath(src, dest)
  }

  ghost predicate XyNetwork(net: seq<Packet>, rows: nat, cols: nat) {
    forall q :: 0 <= q < |net| ==> XyPacket(net[q], rows, cols)
  }

  lemma {:induction false} XyStep(src: Pos, dest: Pos, j: nat)
    requires j + 1 < |XyPath(src, dest)|
    ensures var p := XyPath(src, dest);
      p[j] != dest && p[j + 1] == Move(p[j], XyDir(p[j], dest)) && Heading(p[j], p[j + 1]) == XyDir(p[j], dest)
    decreases j
  {
    if j > 0 { XyStep(Move(src, XyDir(src, dest)), dest, j - 1); }
  }

  /** The links of the route. */
  function Links(src: Pos, dest: Pos): (chain: seq<Channel>)
    ensures |chain| == |XyPath(src, dest)| - 1
  {
    var p := XyPath(src, dest);
    seq(|p| - 1, j requires 0 <= j < |p| - 1 => Channel(p[j], Heading(p[j], p[j + 1])))
  }

  lemma LinksInMesh(src: Pos, dest: Pos, rows: nat, cols: nat, j: nat)
    requires InMesh(src, rows, cols) && InMesh(dest, rows, cols) && j < |Links(src, dest)|
    ensures InMeshChannel(Links(src, dest)[j], rows, cols)
  {
    hide XyPath, XyDir, Move, Heading, OnXy;
    var p := XyPath(src, dest);
    XyStep(src, dest, j);
    assert p[j] in p && p[j + 1] in p;
    XyInMesh(src, dest, p[j], rows, cols);
    XyInMesh(src, dest, p[j + 1], rows, cols);
  }

  lemma XyInMesh(src: Pos, dest: Pos, p: Pos, rows: nat, cols: nat)
    requires InMesh(src, rows, cols) && InMesh(dest, rows, cols) && p in XyPath(src, dest)
    ensures InMesh(p, rows, cols)
  {
    hide XyPath;
    XyPathVisits(src, dest, p);
  }

  lemma LinksDepend(src: Pos, dest: Pos, j: nat)
    requires j < |Links(src, dest)| - 1
    ensures XyDependency(Links(src, dest)[j], Links(src, dest)[j + 1])
  {
    hide XyPath, XyDir, Move, Heading;
    XyStep(src, dest, j);
    XyStep(src, dest, j + 1);
  }

  lemma LinksAreChain(src: Pos, dest: Pos, rows: nat, cols: nat)
    requires InMesh(src, rows, cols) && InMesh(dest, rows, cols)
    ensures IsChain(Links(src, dest), rows, cols)
  {
    hide Links, XyDependency, InMeshChannel;
    var chain := Links(src, dest);
    forall j | 0 <= j < |chain| ensures InMeshChannel(chain[j], rows, cols) {
      LinksInMesh(src, dest, rows, cols, j);
    }
    forall j | 0 <= j < |chain| - 1 ensures XyDependency(chain[j], chain[j + 1]) {
      LinksDepend(src, dest, j);
    }
  }

  lemma RankBounds(c: Channel, rows: nat, cols: nat)
    requires InMeshChannel(c, rows, cols)
    ensures 0 <= Rank(c, rows, cols) < rows + cols + 2
  {}

  /** XY routes climb, because no chain of XY dependencies returns. */
  lemma XyClimbs(p: Packet, rows: nat, cols: nat)
    requires XyPacket(p, rows, cols)
    ensures Sound(p) && Climbs(p, rows, cols)
  {
    hide XyPath, Rank, XyDependency, InMeshChannel, Heading;
    var src, dest :| InMesh(src, rows, cols) && InMesh(dest, rows, cols) && p.path == XyPath(src, dest);
    var chain := Links(src, dest);
    LinksAreChain(src, dest, rows, cols);
    forall i: nat, j: nat | i < j <= |p.path|
      ensures Level(BufferAt(p, i), rows, cols) < Level(BufferAt(p, j), rows, cols)
    {
      if i > 0 { RankBounds(chain[i - 1], rows, cols); }
      if j < |p.path| { RankBounds(chain[j - 1], rows, cols); }
      if 0 < i && j < |p.path| { XyIsAcyclic(chain, rows, cols, i - 1, j - 1); }
    }
  }

  lemma XyAllClimb(net: seq<Packet>, rows: nat, cols: nat)
    requires XyNetwork(net, rows, cols)
    ensures AllClimb(net, rows, cols)
  {
    hide XyPacket, Climbs;
    forall q | 0 <= q < |net| ensures Sound(net[q]) && Climbs(net[q], rows, cols) {
      XyClimbs(net[q], rows, cols);
    }
  }

  /** A mesh with XY routing never comes to a standstill: any run can be continued
      until every packet is delivered, whatever the packets, the VCs and their depth,
      and no run is longer than the hops there are to make. */
  lemma XyDelivers(net: seq<Packet>, hops: seq<Hop>, rows: nat, cols: nat, vcs: nat, depth: nat)
    requires XyNetwork(net, rows, cols) && vcs >= 1 && depth >= 1
    requires Placed(net, Fresh(net)) && Run(net, Fresh(net), hops, vcs, depth)
    ensures |hops| <= Work(net, Fresh(net))
    ensures exists more ::
      && Run(net, Fresh(net), hops + more, vcs, depth)
      && Delivered(net, Final(net, Fresh(net), hops + more, vcs, depth))
  {
    hide Run, Final, Work, Delivered;
    XyAllClimb(net, rows, cols);
    RunUsesWork(net, Fresh(net), hops, vcs, depth);
    var more := Finish(net, Final(net, Fresh(net), hops, vcs, depth), rows, cols, vcs, depth);
    RunConcat(net, Fresh(net), hops, more, vcs, depth);
  }

  // ----- detours

  /** The packet takes the route outportCompute gives it, tagged or not, inside the mesh. */
  ghost predicate RoutedPacket(p: Packet, rows: nat, cols: nat) {
    p.size >= 1 && exists src, dest, tag, draw: nat :: Takes(p.path, src, dest, tag, draw, rows, cols)
  }

  ghost predicate Takes(path: seq<Pos>, src: Pos, dest: Pos, tag: bool, draw: nat, rows: nat, cols: nat) {
    && InMesh(src, rows, cols) && InMesh(dest, rows, cols) && Drawable(draw, cols)
    && (tag && src != dest ==>
          Choose(src, dest, cols, draw).Some? && InMesh(Choose(src, dest, cols, draw).value, rows, cols))
    && path == Journey(NewRoute(dest, tag), src, Chosen(src, dest, cols, draw))
  }

  ghost predicate RoutedNetwork(net: seq<Packet>, rows: nat, cols: nat) {
    forall q :: 0 <= q < |net| ==> RoutedPacket(net[q], rows, cols)
  }

  /** The run ends with packets in the network of which none can move. */
  ghost predicate Deadlocks(net: seq<Packet>, hops: seq<Hop>, vcs: nat, depth: nat) {
    && Placed(net, Fresh(net)) && Run(net, Fresh(net), hops, vcs, depth)
    && var end := Final(net, Fresh(net), hops, vcs, depth);
       !Delivered(net, end) && forall m :: !Enabled(net, end, m, vcs, depth)
  }

  ghost predicate CanDeadlock(rows: nat, cols: nat, vcs: nat, depth: nat) {
    exists net, hops :: RoutedNetwork(net, rows, cols) && Deadlocks(net, hops, vcs, depth)
  }

  /** In a single row or column no detour fits. */
  lemma NoDetourInALine(p: Packet, rows: nat, cols: nat)
    requires RoutedPacket(p, rows, cols) && (rows < 2 || cols < 2)
    ensures XyPacket(p, rows, cols)
  {
    hide Journey, XyPath;
    var src, dest, tag, draw: nat :| Takes(p.path, src, dest, tag, draw, rows, cols);
    if !tag {
      UntaggedFollowsXy(src, dest, Chosen(src, dest, cols, draw));
    } else {
      JourneyToSelf(src, Chosen(src, dest, cols, draw));
    }
  }

  lemma JourneyToSelf(src: Pos, mid: Pos)
    ensures Journey(NewRoute(src, true), src, mid) == [src] == XyPath(src, src)
  {}

  /** The corners of the unit square, counted round. */
  function Corner(i: nat): Pos {
    match i % 4
    case 0 => Pos(0, 0)
    case 1 => Pos(1, 0)
    case 2 => Pos(1, 1)
    case _ => Pos(0, 1)
  }

  function Edge(i: nat): Buffer {
    Link(Channel(Corner(i), Heading(Corner(i), Corner(i + 1))))
  }

  function Turner(i: nat): Packet {
    Packet([Corner(i), Corner(i + 1), Corner(i + 2)], 0, 1)
  }

  lemma TurnerIsRouted(i: nat, rows: nat, cols: nat)
    requires rows >= 2 && cols >= 2
    ensures RoutedPacket(Turner(i), rows, cols)
  {
    hide Journey;
    var tag := i % 2 == 1;
    CornerPath(Corner(i), Corner(i + 2), tag, cols);
    assert Takes(Turner(i).path, Corner(i), Corner(i + 2), tag, 0, rows, cols);
  }

  lemma TurnerBuffers(i: nat)
    ensures BufferAt(Turner(i), 0) == Inject(Corner(i)) && BufferAt(Turner(i), 1) == Edge(i)
    ensures BufferAt(Turner(i), 2) == Edge(i + 1) && BufferAt(Turner(i), 3) == Eject(Corner(i + 2))
  {}

  lemma EdgesDiffer(i: nat, j: nat)
    ensures Edge(i) == Edge(j) <==> i % 4 == j % 4
  {}

  /** As many packets round the square as fill its four links. */
  function Ring(vcs: nat): (net: seq<Packet>)
    ensures |net| == 4 * vcs && forall q :: 0 <= q < |net| ==> net[q] == Turner(q)
  {
    seq(4 * vcs, q requires 0 <= q < 4 * vcs => Turner(q))
  }

  /** The first n wait at the end of their first link, the next is at x, the rest has
      not set out. */
  function Queued(vcs: nat, n: nat, x: nat): (st: Places)
    ensures |st| == 4 * vcs && forall q :: 0 <= q < |st| ==> st[q] == [if q < n then 2 else if q == n then x else 0]
  {
    seq(4 * vcs, q requires 0 <= q < 4 * vcs => [if q < n then 2 else if q == n then x else 0])
  }

  lemma QueuedIsPlaced(vcs: nat, n: nat, x: nat)
    requires x <= 1
    ensures Placed(Ring(vcs), Queued(vcs, n, x))
  {
    hide Ring, Queued;
  }

  lemma TurnerUses(i: nat, x: nat, b: Buffer)
    requires x <= 2
    ensures Uses(Turner(i), [x], b, 0) <==> (x == 1 && b == Inject(Corner(i))) || (x == 2 && b == Edge(i))
  {
    hide BufferAt, Edge, Corner;
    TurnerBuffers(i);
    if x > 0 { assert Occupies([x], x - 1); }
  }

  lemma {:induction false} EdgeUsers(vcs: nat, n: nat, x: nat, i: nat, m: nat)
    requires x <= 1 && i < 4 && m <= 4 * vcs
    ensures Placed(Ring(vcs), Queued(vcs, n, x))
    ensures Users(Ring(vcs), Queued(vcs, n, x), Edge(i), 0, m) == ((if m < n then m else n) + 3 - i) / 4
    decreases m
  {
    hide Ring, Queued, Uses, Edge, Turner, Placed;
    QueuedIsPlaced(vcs, n, x);
    if m > 0 {
      EdgeUsers(vcs, n, x, i, m - 1);
      EdgeUser(vcs, n, x, i, m - 1);
      if m <= n { EveryFourth(m - 1, i); }
    }
  }

  lemma EdgeUser(vcs: nat, n: nat, x: nat, i: nat, q: nat)
    requires x <= 1 && i < 4 && q < 4 * vcs
    ensures Placed(Ring(vcs), Queued(vcs, n, x))
    ensures Uses(Ring(vcs)[q], Queued(vcs, n, x)[q], Edge(i), 0) <==> q < n && q % 4 == i
  {
    hide Ring, Queued, Uses, Edge, Turner;
    QueuedIsPlaced(vcs, n, x);
    TurnerUses(q, Queued(vcs, n, x)[q][0], Edge(i));
    EdgesDiffer(q, i);
    EdgeIsLink(i);
  }

  lemma EveryFourth(m: nat, i: nat)
    requires i < 4
    ensures (m + 4 - i) / 4 == (m + 3 - i) / 4 + if m % 4 == i then 1 else 0
  {}

  lemma EdgeIsLink(i: nat)
    ensures Edge(i).Link?
  {}

  lemma NobodyInjects(vcs: nat, n: nat, i: nat)
    ensures Placed(Ring(vcs), Queued(vcs, n, 0))
    ensures Users(Ring(vcs), Queued(vcs, n, 0), Inject(Corner(i)), 0, 4 * vcs) == 0
  {
    hide Ring, Queued, Uses, Corner, Turner;
    QueuedIsPlaced(vcs, n, 0);
    forall q | 0 <= q < 4 * vcs ensures !Uses(Ring(vcs)[q], Queued(vcs, n, 0)[q], Inject(Corner(i)), 0) {
      TurnerUses(q, Queued(vcs, n, 0)[q][0], Inject(Corner(i)));
      EdgeIsLink(q);
    }
  }

  lemma QueuedAdvance(vcs: nat, n: nat, x: nat)
    requires n < 4 * vcs && x <= 1
    ensures Advance(Queued(vcs, n, x), Hop(n, 0)) == if x == 0 then Queued(vcs, n, 1) else Queued(vcs, n + 1, 0)
  {
    hide Queued;
    var a, b := Advance(Queued(vcs, n, x), Hop(n, 0)), if x == 0 then Queued(vcs, n, 1) else Queued(vcs, n + 1, 0);
    assert [x][0 := x + 1] == [x + 1];
    forall q | 0 <= q < 4 * vcs ensures a[q] == b[q] {
      assert q != n ==> a[q] == Queued(vcs, n, x)[q];
    }
  }

  /** The next packet sets out and comes to the end of its first link. */
  lemma QueueOne(vcs: nat, n: nat, depth: nat)
    requires n < 4 * vcs
    ensures Placed(Ring(vcs), Queued(vcs, n, 0)) && Run(Ring(vcs), Queued(vcs, n, 0), [Hop(n, 0), Hop(n, 0)], vcs, depth)
    ensures Final(Ring(vcs), Queued(vcs, n, 0), [Hop(n, 0), Hop(n, 0)], vcs, depth) == Queued(vcs, n + 1, 0)
  {
    hide Ring, Queued, Users, Turner, Advance, Enabled, Placed;
    var h := Hop(n, 0);
    FirstHopEnabled(vcs, n, depth);
    SecondHopEnabled(vcs, n, depth);
    QueuedIsPlaced(vcs, n + 1, 0);
    QueuedAdvance(vcs, n, 0);
    QueuedAdvance(vcs, n, 1);
    assert [h, h][1..] == [h] && [h][1..] == [];
    assert Run(Ring(vcs), Queued(vcs, n, 1), [h], vcs, depth);
    assert Final(Ring(vcs), Queued(vcs, n + 1, 0), [], vcs, depth) == Queued(vcs, n + 1, 0);
    assert Final(Ring(vcs), Queued(vcs, n, 1), [h], vcs, depth) == Queued(vcs, n + 1, 0);
  }

  lemma FirstHopEnabled(vcs: nat, n: nat, depth: nat)
    requires n < 4 * vcs
    ensures Placed(Ring(vcs), Queued(vcs, n, 0)) && Enabled(Ring(vcs), Queued(vcs, n, 0), Hop(n, 0), vcs, depth)
  {
    hide Ring, Queued, Users, BufferAt, Corner, Edge;
    TurnerBuffers(n);
    NobodyInjects(vcs, n, n);
  }

  lemma SecondHopEnabled(vcs: nat, n: nat, depth: nat)
    requires n < 4 * vcs
    ensures Placed(Ring(vcs), Queued(vcs, n, 1)) && Enabled(Ring(vcs), Queued(vcs, n, 1), Hop(n, 0), vcs, depth)
  {
    hide Ring, Queued, Users, BufferAt, Corner, Edge;
    TurnerBuffers(n);
    EdgesDiffer(n, n % 4);
    EdgeUsers(vcs, n, 1, n % 4, 4 * vcs);
  }

  lemma {:induction false} QueueRun(vcs: nat, n: nat, depth: nat) returns (hops: seq<Hop>)
    requires n <= 4 * vcs
    ensures Placed(Ring(vcs), Queued(vcs, 0, 0)) && Run(Ring(vcs), Queued(vcs, 0, 0), hops, vcs, depth)
    ensures Final(Ring(vcs), Queued(vcs, 0, 0), hops, vcs, depth) == Queued(vcs, n, 0)
  {
    hide Ring, Queued, Placed;
    QueuedIsPlaced(vcs, 0, 0);
    hops := [];
    if n > 0 {
      hide *;
      hops := QueueRun(vcs, n - 1, depth);
      QueueOne(vcs, n - 1, depth);
      var two := [Hop(n - 1, 0), Hop(n - 1, 0)];
      RunConcat(Ring(vcs), Queued(vcs, 0, 0), hops, two, vcs, depth);
      hops := hops + two;
    }
  }

  /** Every packet waits for the link the next one is on. */
  lemma RingIsStuck(vcs: nat, h: Hop, depth: nat)
    ensures Placed(Ring(vcs), Queued(vcs, 4 * vcs, 0)) && !Enabled(Ring(vcs), Queued(vcs, 4 * vcs, 0), h, vcs, depth)
  {
    hide Ring, Queued, Users, BufferAt, Corner, Edge;
    var n := 4 * vcs;
    QueuedIsPlaced(vcs, n, 0);
    if Ready(Ring(vcs), Queued(vcs, n, 0), h) {
      var i := (h.packet + 1) % 4;
      TurnerBuffers(h.packet);
      EdgesDiffer(h.packet + 1, i);
      EdgeUsers(vcs, n, 0, i, n);
    }
  }

  lemma SquareDeadlocks(rows: nat, cols: nat, vcs: nat, depth: nat)
    requires rows >= 2 && cols >= 2 && vcs >= 1
    ensures CanDeadlock(rows, cols, vcs, depth)
  {
    hide RoutedPacket, Run, Final, Enabled, Turner;
    var net := Ring(vcs);
    forall q | 0 <= q < |net| ensures RoutedPacket(net[q], rows, cols) {
      TurnerIsRouted(q, rows, cols);
    }
    var hops := QueueRun(vcs, 4 * vcs, depth);
    assert Fresh(net) == Queued(vcs, 0, 0) by { RingIsFresh(vcs); }
    forall m ensures !Enabled(net, Queued(vcs, 4 * vcs, 0), m, vcs, depth) {
      RingIsStuck(vcs, m, depth);
    }
    assert Queued(vcs, 4 * vcs, 0)[0] == [2];
    RingHasFarToGo(vcs);
    assert RoutedNetwork(net, rows, cols) && Deadlocks(net, hops, vcs, depth);
  }

  lemma RingIsFresh(vcs: nat)
    ensures Fresh(Ring(vcs)) == Queued(vcs, 0, 0)
  {
    hide Ring, Queued;
    forall q | 0 <= q < 4 * vcs ensures Fresh(Ring(vcs))[q] == Queued(vcs, 0, 0)[q] {
      assert Fresh(Ring(vcs))[q] == [0];
    }
  }

  lemma RingHasFarToGo(vcs: nat)
    requires vcs >= 1
    ensures Placed(Ring(vcs), Queued(vcs, 4 * vcs, 0)) && !Delivered(Ring(vcs), Queued(vcs, 4 * vcs, 0))
  {
    hide Ring, Queued;
    QueuedIsPlaced(vcs, 4 * vcs, 0);
    assert Queued(vcs, 4 * vcs, 0)[0][0] == 2 && Ring(vcs)[0] == Turner(0);
  }

  /** With detours the network can come to a standstill exactly in meshes with at least
      two rows and two columns, whatever the number of VCs and their depth. */
  lemma CanDeadlockIff(rows: nat, cols: nat, vcs: nat, depth: nat)
    requires vcs >= 1 && depth >= 1
    ensures CanDeadlock(rows, cols, vcs, depth) <==> rows >= 2 && cols >= 2
  {
    hide Deadlocks, RoutedPacket;
    if rows >= 2 && cols >= 2 {
      SquareDeadlocks(rows, cols, vcs, depth);
    } else {
      forall net, hops | RoutedNetwork(net, rows, cols) ensures !Deadlocks(net, hops, vcs, depth) {
        LineIsXy(net, rows, cols);
        XyDoesNotDeadlock(net, hops, rows, cols, vcs, depth);
      }
    }
  }

  lemma LineIsXy(net: seq<Packet>, rows: nat, cols: nat)
    requires RoutedNetwork(net, rows, cols) && (rows < 2 || cols < 2)
    ensures XyNetwork(net, rows, cols)
  {
    hide RoutedPacket, XyPacket;
    forall q | 0 <= q < |net| ensures XyPacket(net[q], rows, cols) {
      NoDetourInALine(net[q], rows, cols);
    }
  }

  lemma XyDoesNotDeadlock(net: seq<Packet>, hops: seq<Hop>, rows: nat, cols: nat, vcs: nat, depth: nat)
    requires XyNetwork(net, rows, cols) && vcs >= 1 && depth >= 1
    ensures !Deadlocks(net, hops, vcs, depth)
  {
    hide Enabled, Run, Delivered;
    if Deadlocks(net, hops, vcs, depth) {
      XyAllClimb(net, rows, cols);
      NeverStuck(net, Final(net, Fresh(net), hops, vcs, depth), rows, cols, vcs, depth);
    }
  }
}
