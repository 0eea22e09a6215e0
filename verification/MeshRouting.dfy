/** Routing in a mesh of routers (RoutingUnit.cc): XY routing, Resister's detours
    (outportValiant) and the original Valiant routing (outportOriValiant).
    Router id = y * cols + x. */
module MeshRouting {
  import opened Wrappers
  import opened Arith

  datatype Pos = Pos(x: int, y: int)
  datatype Dir = North | East | West | South
  predicate InMesh(p: Pos, rows: nat, cols: nat) {
    0 <= p.x < cols && 0 <= p.y < rows
  }

  function Abs(n: int): nat {
    if n < 0 then -n else n
  }

  /** Hops between two routers. */
  function Dist(a: Pos, b: Pos): nat {
    Abs(a.x - b.x) + Abs(a.y - b.y)
  }

  function Move(p: Pos, d: Dir): Pos {
    match d
    case North => Pos(p.x, p.y + 1)
    case East => Pos(p.x + 1, p.y)
    case West => Pos(p.x - 1, p.y)
    case South => Pos(p.x, p.y - 1)
  }

  // ----- router ids

  function Id(p: Pos, cols: nat): int {
    p.y * cols + p.x
  }

  /** The coordinates outportComputeXY takes from an id. */
  function At(id: nat, cols: nat): Pos
    requires cols > 0
  {
    Pos(id % cols, id / cols)
  }

  lemma IdsAreCoordinates(p: Pos, cols: nat)
    requires 0 <= p.x < cols && p.y >= 0
    ensures Id(p, cols) >= 0 && At(Id(p, cols), cols) == p
  {
    assert p.y * cols >= 0;
    DivModUnique(Id(p, cols), cols, p.y, p.x);
  }

  /** compute_neighbor_id follows Move. */
  lemma NeighborIds(p: Pos, cols: nat)
    ensures Id(Move(p, North), cols) == Id(p, cols) + cols
    ensures Id(Move(p, East), cols) == Id(p, cols) + 1
    ensures Id(Move(p, West), cols) == Id(p, cols) - 1
    ensures Id(Move(p, South), cols) == Id(p, cols) - cols
  {}

  // ----- XY routing

  /** outportComputeXY: along the row first, then along the column. */
  function XyDir(here: Pos, target: Pos): Dir
    requires here != target
  {
    if here.x != target.x then (if target.x >= here.x then East else West)
    else if target.y >= here.y then North else South
  }

  /** The routers visited from a to b, both included. */
  function XyPath(a: Pos, b: Pos): (p: seq<Pos>)
    ensures p != [] && p[0] == a
    decreases Dist(a, b)
  {
    if a == b then [a] else [a] + XyPath(Move(a, XyDir(a, b)), b)
  }

  predicate Between(u: int, a: int, b: int) {
    a <= u <= b || b <= u <= a
  }

  /** p lies on the row of a up to the column of b, or on that column. */
  predicate OnXy(a: Pos, b: Pos, p: Pos) {
    || (p.y == a.y && Between(p.x, a.x, b.x))
    || (p.x == b.x && Between(p.y, a.y, b.y))
  }

  lemma {:induction false} XyPathVisits(a: Pos, b: Pos, p: Pos)
    ensures p in XyPath(a, b) <==> OnXy(a, b, p)
    decreases Dist(a, b)
  {
    if a != b {
      XyPathVisits(Move(a, XyDir(a, b)), b, p);
    }
  }

  lemma {:induction false} XyPathLength(a: Pos, b: Pos)
    ensures |XyPath(a, b)| == Dist(a, b) + 1
    ensures XyPath(a, b)[Dist(a, b)] == b
    decreases Dist(a, b)
  {
    if a != b {
      XyPathLength(Move(a, XyDir(a, b)), b);
    }
  }

  // ----- the route of a packet

  /** RouteInfo: a tagged packet travels through inter before dest. */
  datatype Route = Route(dest: Pos, tag: bool, inter: Option<Pos>, passed: bool)

  /** outportValiant and outportOriValiant at router here, with mid the
      intermediate router drawn if none is set yet. */
  function Compute(r: Route, here: Pos, mid: Pos): (Route, Option<Dir>)
    requires here != r.dest
  {
    if !r.tag then (r, Some(XyDir(here, r.dest)))
    else if r.inter.None? then
      (r.(inter := Some(mid)), Toward(here, mid))
    else
      var r' := if !r.passed && r.inter.value == here then r.(passed := true) else r;
      (r', if r'.passed then Toward(here, r'.dest) else Toward(here, r'.inter.value))
  }

  /** None stands for the failing assertion of outportComputeXY. */
  function Toward(here: Pos, target: Pos): Option<Dir> {
    if here == target then None else Some(XyDir(here, target))
  }

  /** The hops a packet still has to make if nothing stops it early. */
  function Remaining(r: Route, here: Pos, mid: Pos): nat {
    if r.tag && (r.inter.None? || !r.passed) then
      var m := if r.inter.Some? then r.inter.value else mid;
      Dist(here, m) + Dist(m, r.dest)
    else Dist(here, r.dest)
  }

  lemma XyHopShrinks(here: Pos, target: Pos)
    requires here != target
    ensures Dist(Move(here, XyDir(here, target)), target) == Dist(here, target) - 1
  {}

  lemma Triangle(a: Pos, b: Pos, c: Pos)
    ensures Dist(a, c) <= Dist(a, b) + Dist(b, c)
  {}

  lemma HopShrinks(r: Route, here: Pos, mid: Pos)
    requires here != r.dest
    ensures var (r', d) := Compute(r, here, mid);
      d.Some? ==> Remaining(r', Move(here, d.value), mid) < Remaining(r, here, mid)
  {
    hide Dist, XyDir, Move;
    var m := if r.inter.Some? then r.inter.value else mid;
    if here != m { XyHopShrinks(here, m); }
    XyHopShrinks(here, r.dest);
    SelfDist(here);
    var d := Compute(r, here, mid).1;
    if d.Some? { Triangle(Move(here, d.value), m, r.dest); }
  }

  lemma SelfDist(a: Pos)
    ensures Dist(a, a) == 0
  {}

  /** The routers a packet visits: outportCompute at each of them, starting with
      the test for the destination. */
  function Journey(r: Route, here: Pos, mid: Pos): seq<Pos>
    decreases Remaining(r, here, mid)
  {
    if here == r.dest then [here] else
      var (r', d) := Compute(r, here, mid);
      HopShrinks(r, here, mid);
      if d.None? then [here] else [here] + Journey(r', Move(here, d.value), mid)
  }

  function NewRoute(dest: Pos, tag: bool): Route {
    Route(dest, tag, None, false)
  }

  // ----- the shape of every journey

  lemma {:induction false} PassedJourney(r: Route, here: Pos, mid: Pos)
    requires !r.tag || (r.passed && r.inter.Some?)
    ensures Journey(r, here, mid) == XyPath(here, r.dest)
    decreases Dist(here, r.dest)
  {
    if here != r.dest {
      PassedJourney(r, Move(here, XyDir(here, r.dest)), mid);
    }
  }

  /** An untagged packet follows XY routing. */
  lemma UntaggedFollowsXy(src: Pos, dest: Pos, mid: Pos)
    ensures Journey(NewRoute(dest, false), src, mid) == XyPath(src, dest)
  {
    PassedJourney(NewRoute(dest, false), src, mid);
  }

  /** On its way to inter, a packet that does not meet dest goes there by XY and
      continues to dest by XY. */
  lemma {:induction false} TowardInter(r: Route, here: Pos, mid: Pos)
    requires r.tag && !r.passed && r.inter == Some(mid) && mid != r.dest
    requires !OnXy(here, mid, r.dest)
    ensures Journey(r, here, mid) == XyPath(here, mid) + XyPath(mid, r.dest)[1..]
    decreases Dist(here, mid)
  {
    if here == mid {
      var r' := r.(passed := true);
      PassedJourney(r', Move(here, XyDir(here, r.dest)), mid);
      assert Journey(r, here, mid) == XyPath(mid, r.dest);
    } else {
      TowardInter(r, Move(here, XyDir(here, mid)), mid);
    }
  }

  /** On its way to inter, a packet that meets dest is ejected there, before
      inter: outportCompute tests for the destination first. */
  lemma {:induction false} EjectedEarly(r: Route, here: Pos, mid: Pos)
    requires r.tag && !r.passed && r.inter == Some(mid) && mid != r.dest
    requires OnXy(here, mid, r.dest)
    ensures Journey(r, here, mid) == XyPath(here, r.dest)
    ensures mid !in Journey(r, here, mid)
    decreases Dist(here, mid)
  {
    if here != r.dest {
      var next := Move(here, XyDir(here, mid));
      assert here != mid && OnXy(next, mid, r.dest);
      EjectedEarly(r, next, mid);
      assert XyDir(here, mid) == XyDir(here, r.dest);
      assert Journey(r, here, mid) == [here] + Journey(r, next, mid);
    }
  }

  lemma NextOnXy(here: Pos, mid: Pos, dest: Pos)
    requires here != mid && here != dest
    ensures OnXy(here, mid, dest) <==> OnXy(Move(here, XyDir(here, mid)), mid, dest)
    ensures OnXy(here, mid, dest) ==> XyDir(here, mid) == XyDir(here, dest)
  {}

  /** Valiant routing over any drawn router: the packet passes through it
      exactly when the destination is not on the XY path to it; otherwise it
      takes the plain XY route. */
  lemma VisitsIntermediateIff(src: Pos, dest: Pos, mid: Pos)
    requires src != dest && mid != src && mid != dest
    ensures mid in Journey(NewRoute(dest, true), src, mid) <==> !OnXy(src, mid, dest)
    ensures Journey(NewRoute(dest, true), src, mid) ==
            if OnXy(src, mid, dest) then XyPath(src, dest) else XyPath(src, mid) + XyPath(mid, dest)[1..]
  {
    hide OnXy, XyDir, Move, Journey, XyPath;
    var r := NewRoute(dest, true).(inter := Some(mid));
    var next := Move(src, XyDir(src, mid));
    FirstHop(src, dest, mid);
    NextOnXy(src, mid, dest);
    if OnXy(src, mid, dest) {
      EjectedEarly(r, next, mid);
    } else {
      TowardInter(r, next, mid);
      XyPathVisits(src, mid, mid);
      EndIsOnXy(src, mid);
    }
  }

  lemma FirstHop(src: Pos, dest: Pos, mid: Pos)
    requires src != dest && mid != src
    ensures Journey(NewRoute(dest, true), src, mid) ==
            [src] + Journey(NewRoute(dest, true).(inter := Some(mid)), Move(src, XyDir(src, mid)), mid)
    ensures XyPath(src, mid) == [src] + XyPath(Move(src, XyDir(src, mid)), mid)
    ensures XyPath(src, dest) == [src] + XyPath(Move(src, XyDir(src, dest)), dest)
  {}

  lemma EndIsOnXy(a: Pos, b: Pos)
    ensures OnXy(a, b, b)
  {}

  /** outportOriValiant can draw a router behind the destination, which the
      packet then never reaches. */
  lemma OriValiantMayMissIntermediate()
    ensures var src, dest, mid := Pos(0, 0), Pos(1, 0), Pos(2, 0);
      mid !in Journey(NewRoute(dest, true), src, mid)
  {
    VisitsIntermediateIff(Pos(0, 0), Pos(1, 0), Pos(2, 0));
  }

  // ----- Resister's choice of the intermediate router

  /** Entry draw of the list of the numbers below n other than skip. */
  function OptionAt(draw: nat, skip: int, n: nat): nat {
    if draw < skip || skip < 0 || skip >= n then draw else draw + 1
  }

  function OptionCount(skip: int, n: nat): nat {
    if 0 <= skip < n then n - 1 else n
  }

  /** The list holds every number below n but skip, in ascending order. */
  lemma OptionsAreAll(skip: int, n: nat, draw: nat, v: nat)
    ensures draw < OptionCount(skip, n) ==> OptionAt(draw, skip, n) < n && OptionAt(draw, skip, n) != skip
    ensures draw < v < OptionCount(skip, n) ==> OptionAt(draw, skip, n) < OptionAt(v, skip, n)
    ensures v < n && v != skip ==> exists d: nat :: d < OptionCount(skip, n) && OptionAt(d, skip, n) == v
  {
    if v < n && v != skip {
      var d := if 0 <= skip < v then v - 1 else v;
      assert d < OptionCount(skip, n) && OptionAt(d, skip, n) == v;
    }
  }

  /** The numbers the generator may return: 0 .. cols - 2, but the bound is unsigned,
      so with one column any number. */
  predicate Drawable(draw: nat, cols: nat) {
    cols >= 2 ==> draw <= cols - 2
  }

  /** The intermediate router outportValiant sets at router here; None when the draw
      is beyond the list of options. */
  function Choose(here: Pos, dest: Pos, cols: nat, draw: nat): Option<Pos> {
    if here.y == dest.y then
      if draw < OptionCount(here.y, cols) then Some(Pos(here.x, OptionAt(draw, here.y, cols))) else None
    else
      if draw < OptionCount(dest.x, cols) then Some(Pos(OptionAt(draw, dest.x, cols), dest.y)) else None
  }

  /** The draw points past the list exactly when it is not below the number of rows or
      columns left to choose from. */
  lemma ChooseFindsIff(here: Pos, dest: Pos, cols: nat, draw: nat)
    ensures var skipped := if here.y == dest.y then here.y else dest.x;
      Choose(here, dest, cols, draw).Some? <==> draw < (if 0 <= skipped < cols then cols - 1 else cols)
  {}

  /** A detour is found inside the mesh for every source, destination and draw
      exactly when there are at least two columns and no more columns than rows
      (or a single router): rows are drawn from 0..cols-1, and one column leaves
      nothing to draw. */
  lemma DetourStaysInMeshIff(rows: nat, cols: nat)
    requires rows >= 1 && cols >= 1
    ensures (forall src, dest, draw: nat ::
               (InMesh(src, rows, cols) && InMesh(dest, rows, cols) && src != dest && Drawable(draw, cols))
               ==> Choose(src, dest, cols, draw).Some? && InMesh(Choose(src, dest, cols, draw).value, rows, cols))
            <==> 2 <= cols <= rows || rows == cols == 1
  {
    if cols == 1 < rows {
      assert Drawable(0, cols) && Choose(Pos(0, 0), Pos(0, 1), cols, 0).None?;
    } else if cols > rows {
      var src, dest, draw := Pos(0, 0), Pos(1, 0), cols - 2;
      assert Drawable(draw, cols) && Choose(src, dest, cols, draw).value.y == cols - 1;
    }
  }

  /** The chosen router is off the XY route.  If it exists, a detoured packet reaches
      it before the destination and the detour is exactly the two XY legs inside
      the mesh; if it does not, the directions computed lead past the edge, where the
      look-up of a port the router does not have is not modelled. */
  lemma DetourAvoidsXy(src: Pos, dest: Pos, rows: nat, cols: nat, draw: nat)
    requires InMesh(src, rows, cols) && InMesh(dest, rows, cols) && src != dest && Drawable(draw, cols)
    ensures Choose(src, dest, cols, draw).Some? <==> cols >= 2
    ensures cols >= 2 ==>
      var mid := Choose(src, dest, cols, draw).value; var journey := Journey(NewRoute(dest, true), src, mid);
      && mid != src && mid != dest && mid !in XyPath(src, dest)
      && ((forall p :: p in journey ==> InMesh(p, rows, cols)) <==> InMesh(mid, rows, cols))
      && (InMesh(mid, rows, cols) ==>
            && mid in journey
            && journey == XyPath(src, mid) + XyPath(mid, dest)[1..]
            && |journey| == Dist(src, mid) + Dist(mid, dest) + 1)
  {
    hide Journey, XyPath;
    if cols >= 2 {
      var mid := Choose(src, dest, cols, draw).value;
      assert !OnXy(src, dest, mid) && !OnXy(src, mid, dest);
      XyPathVisits(src, dest, mid);
      VisitsIntermediateIff(src, dest, mid);
      XyPathLength(src, mid);
      XyPathLength(mid, dest);
      LegsInMesh(src, dest, mid, rows, cols);
    }
  }

  /** XY legs between routers of the mesh stay in it. */
  lemma LegsInMesh(src: Pos, dest: Pos, mid: Pos, rows: nat, cols: nat)
    requires InMesh(src, rows, cols) && InMesh(dest, rows, cols)
    ensures InMesh(mid, rows, cols) ==> forall p :: p in XyPath(src, mid) + XyPath(mid, dest)[1..] ==> InMesh(p, rows, cols)
  {
    hide XyPath;
    if InMesh(mid, rows, cols) {
      forall p | p in XyPath(src, mid) + XyPath(mid, dest)[1..] ensures InMesh(p, rows, cols) {
        XyPathVisits(src, mid, p);
        XyPathVisits(mid, dest, p);
        assert p in XyPath(src, mid) || p in XyPath(mid, dest);
      }
    }
  }

  /** What the detour costs over the XY route, in hops: twice the distance it
      strays from the rectangle of source and destination. */
  lemma DetourCost(src: Pos, dest: Pos, cols: nat, draw: nat)
    requires src != dest && Choose(src, dest, cols, draw).Some?
    ensures var mid := Choose(src, dest, cols, draw).value;
      Dist(src, mid) + Dist(mid, dest) - Dist(src, dest) ==
        if src.y == dest.y then 2 * Abs(mid.y - src.y)
        else 2 * Outside(mid.x, src.x, dest.x)
  {}

  function Outside(u: int, a: int, b: int): nat {
    if Between(u, a, b) then 0 else if Abs(u - a) < Abs(u - b) then Abs(u - a) else Abs(u - b)
  }

  ghost predicate NoRepeats(p: seq<Pos>) {
    forall i, j :: 0 <= i < j < |p| ==> p[i] != p[j]
  }

  lemma {:induction false} XyPathSimple(a: Pos, b: Pos)
    ensures NoRepeats(XyPath(a, b))
    decreases Dist(a, b)
  {
    if a != b {
      var next := Move(a, XyDir(a, b));
      XyPathSimple(next, b);
      XyPathVisits(next, b, a);
      var p := XyPath(next, b);
      forall i, j | 0 <= i < j < |[a] + p| ensures ([a] + p)[i] != ([a] + p)[j] {
        assert ([a] + p)[j] in p;
      }
    }
  }

  /** A detour inside the mesh never comes back to a router it has left; in
      particular it makes no U-turn. */
  lemma DetourIsSimple(src: Pos, dest: Pos, rows: nat, cols: nat, draw: nat)
    requires InMesh(src, rows, cols) && InMesh(dest, rows, cols) && src != dest && Drawable(draw, cols)
    requires Choose(src, dest, cols, draw).Some? && InMesh(Choose(src, dest, cols, draw).value, rows, cols)
    ensures NoRepeats(Journey(NewRoute(dest, true), src, Choose(src, dest, cols, draw).value))
  {
    hide Journey, XyPath;
    var mid := Choose(src, dest, cols, draw).value;
    DetourAvoidsXy(src, dest, rows, cols, draw);
    var p, q := XyPath(src, mid), XyPath(mid, dest);
    XyPathSimple(src, mid);
    XyPathSimple(mid, dest);
    XyPathLength(src, mid);
    forall i, j | 0 <= i < |p| && 1 <= j < |q| ensures p[i] != q[j] {
      XyPathVisits(src, mid, p[i]);
      XyPathVisits(mid, dest, q[j]);
      assert q[j] != q[0] && p[i] in p && q[j] in q;
      if p[i] == q[j] {
        LegsMeetAtMid(src, dest, cols, draw, p[i]);
      }
    }
    forall i, j | 0 <= i < j < |p + q[1..]| ensures (p + q[1..])[i] != (p + q[1..])[j] {
      if i >= |p| {
        assert (p + q[1..])[i] == q[i - |p| + 1] && (p + q[1..])[j] == q[j - |p| + 1];
      } else if j >= |p| {
        assert (p + q[1..])[j] == q[j - |p| + 1];
      }
    }
  }

  lemma LegsMeetAtMid(src: Pos, dest: Pos, cols: nat, draw: nat, u: Pos)
    requires 0 <= src.x < cols && 0 <= dest.x < cols && src != dest
    requires src.y >= 0 && dest.y >= 0 && Choose(src, dest, cols, draw).Some?
    requires var mid := Choose(src, dest, cols, draw).value; OnXy(src, mid, u) && OnXy(mid, dest, u)
    ensures u == Choose(src, dest, cols, draw).value
  {}

  // ----- channel dependencies

  /** The link leaving a router in one direction. */
  datatype Channel = Channel(from: Pos, dir: Dir)

  /** Under XY routing, a packet holding c may ask for d next. */
  ghost predicate XyDependency(c: Channel, d: Channel) {
    exists dest: Pos ::
      && c.from != dest && XyDir(c.from, dest) == c.dir
      && d.from == Move(c.from, c.dir)
      && d.from != dest && XyDir(d.from, dest) == d.dir
  }

  ghost predicate InMeshChannel(c: Channel, rows: nat, cols: nat) {
    InMesh(c.from, rows, cols) && InMesh(Move(c.from, c.dir), rows, cols)
  }

  function Rank(c: Channel, rows: nat, cols: nat): int {
    match c.dir
    case East => c.from.x
    case West => cols - c.from.x
    case North => cols + 1 + c.from.y
    case South => cols + 1 + (rows - c.from.y)
  }

  lemma XyRankIncreases(c: Channel, d: Channel, rows: nat, cols: nat)
    requires InMeshChannel(c, rows, cols) && InMeshChannel(d, rows, cols) && XyDependency(c, d)
    ensures Rank(c, rows, cols) < Rank(d, rows, cols)
  {}

  ghost predicate IsChain(chain: seq<Channel>, rows: nat, cols: nat) {
    && (forall i :: 0 <= i < |chain| ==> InMeshChannel(chain[i], rows, cols))
    && (forall i :: 0 <= i < |chain| - 1 ==> XyDependency(chain[i], chain[i + 1]))
  }

  /** XY routing has no cycle of channel dependencies, in a mesh of any size: a
      chain never comes back to a channel. */
  lemma {:induction false} XyIsAcyclic(chain: seq<Channel>, rows: nat, cols: nat, i: nat, j: nat)
    requires IsChain(chain, rows, cols) && i < j < |chain|
    ensures Rank(chain[i], rows, cols) < Rank(chain[j], rows, cols)
    ensures chain[i] != chain[j]
    decreases j
  {
    hide Rank, XyDependency, InMeshChannel;
    XyRankIncreases(chain[j - 1], chain[j], rows, cols);
    if i < j - 1 {
      XyIsAcyclic(chain, rows, cols, i, j - 1);
    }
  }

  /** Some packet of the detour algorithm, tagged or not, uses c and d in turn. */
  ghost predicate DetourDependency(c: Channel, d: Channel, rows: nat, cols: nat) {
    exists src: Pos, dest: Pos, tag: bool, draw: nat, i: nat ::
      && InMesh(src, rows, cols) && InMesh(dest, rows, cols) && src != dest && Drawable(draw, cols)
      && Choose(src, dest, cols, draw).Some? && InMesh(Choose(src, dest, cols, draw).value, rows, cols)
      && HopsAt(Journey(NewRoute(dest, tag), src, Choose(src, dest, cols, draw).value), i, c, d)
  }

  ghost predicate HopsAt(p: seq<Pos>, i: nat, c: Channel, d: Channel) {
    && i + 2 < |p| && p[i] == c.from
    && p[i + 1] == Move(c.from, c.dir) == d.from
    && p[i + 2] == Move(d.from, d.dir)
  }

  /** With detours the dependencies do form a cycle, in every mesh with at least
      two rows and two columns: the argument that XY routing cannot deadlock
      does not carry over. */
  lemma DetoursAreCyclic(rows: nat, cols: nat)
    requires rows >= 2 && cols >= 2
    ensures var c0, c1 := Channel(Pos(0, 0), East), Channel(Pos(1, 0), North);
            var c2, c3 := Channel(Pos(1, 1), West), Channel(Pos(0, 1), South);
      && DetourDependency(c0, c1, rows, cols) && DetourDependency(c1, c2, rows, cols)
      && DetourDependency(c2, c3, rows, cols) && DetourDependency(c3, c0, rows, cols)
  {
    CornerHops(Pos(0, 0), Pos(1, 1), false, rows, cols, Channel(Pos(0, 0), East), Channel(Pos(1, 0), North));
    CornerHops(Pos(1, 0), Pos(0, 1), true, rows, cols, Channel(Pos(1, 0), North), Channel(Pos(1, 1), West));
    CornerHops(Pos(1, 1), Pos(0, 0), false, rows, cols, Channel(Pos(1, 1), West), Channel(Pos(0, 1), South));
    CornerHops(Pos(0, 1), Pos(1, 0), true, rows, cols, Channel(Pos(0, 1), South), Channel(Pos(0, 0), East));
  }

  /** A packet between opposite corners of a unit square: untagged it turns by
      XY; tagged with draw 0 it takes the other corner. */
  lemma CornerPath(src: Pos, dest: Pos, tag: bool, cols: nat)
    requires cols >= 2 && src.y >= 0 && dest.y >= 0
    requires Abs(src.x - dest.x) == 1 && Abs(src.y - dest.y) == 1 && {src.x, dest.x} == {0, 1}
    ensures Drawable(0, cols) && Choose(src, dest, cols, 0) == Some(Pos(src.x, dest.y))
    ensures Journey(NewRoute(dest, tag), src, Pos(src.x, dest.y)) ==
      [src, if tag then Pos(src.x, dest.y) else Pos(dest.x, src.y), dest]
  {
    var mid := Pos(src.x, dest.y);
    if tag {
      VisitsIntermediateIff(src, dest, mid);
      assert XyPath(src, mid) == [src, mid];
      assert XyPath(mid, dest) == [mid, dest];
    } else {
      UntaggedFollowsXy(src, dest, mid);
      var corner := Pos(dest.x, src.y);
      assert XyPath(corner, dest) == [corner, dest];
      assert XyPath(src, dest) == [src, corner, dest];
    }
  }

  lemma CornerHops(src: Pos, dest: Pos, tag: bool, rows: nat, cols: nat, c: Channel, d: Channel)
    requires InMesh(src, rows, cols) && InMesh(dest, rows, cols) && cols >= 2
    requires Abs(src.x - dest.x) == 1 && Abs(src.y - dest.y) == 1
    requires {src.x, dest.x} == {0, 1}
    requires c.from == src && d.from == Move(c.from, c.dir) && Move(d.from, d.dir) == dest
    requires d.from == if tag then Pos(src.x, dest.y) else Pos(dest.x, src.y)
    ensures DetourDependency(c, d, rows, cols)
  {
    hide Journey;
    CornerPath(src, dest, tag, cols);
    assert HopsAt(Journey(NewRoute(dest, tag), src, Pos(src.x, dest.y)), 0, c, d);
  }

  // ----- the routing unit in place

  /** The route carried by a packet's head flit, updated by every router. */
  class RouteInfo {
    const dest: Pos
    var tag: bool
    var inter: Option<Pos>
    var passed: bool

    constructor (dest: Pos)
      ensures Value() == NewRoute(dest, false)
    {
      this.dest, tag, inter, passed := dest, false, None, false;
    }

    function Value(): Route
      reads this
    {
      Route(dest, tag, inter, passed)
    }
  }

  /** The option vector of outportValiant: the numbers below n other than skip. */
  method Options(skip: int, n: nat) returns (options: seq<nat>)
    ensures |options| == OptionCount(skip, n)
    ensures forall k :: 0 <= k < |options| ==> options[k] == OptionAt(k, skip, n)
  {
    options := [];
    for i := 0 to n
      invariant |options| == if 0 <= skip < i then i - 1 else i
      invariant forall k :: 0 <= k < |options| ==> options[k] == OptionAt(k, skip, n)
    {
      if i != skip {
        options := options + [i];
      }
    }
  }

  /** The router chosen; here when there is none, which is not looked at. */
  function Chosen(here: Pos, dest: Pos, cols: nat, draw: nat): Pos {
    if Choose(here, dest, cols, draw).Some? then Choose(here, dest, cols, draw).value else here
  }

  /** outportValiant with the number drawn; ok is false when the option vector is
      indexed beyond its end. */
  method OutportValiant(route: RouteInfo, here: Pos, cols: nat, draw: nat) returns (ok: bool, out: Option<Dir>)
    requires here != route.dest && 0 <= here.x < cols && 0 <= route.dest.x < cols
    modifies route
    ensures ok <==> !old(route.tag) || old(route.inter).Some? || Choose(here, route.dest, cols, draw).Some?
    ensures ok ==> (route.Value(), out) == Compute(old(route.Value()), here, Chosen(here, route.dest, cols, draw))
  {
    ok := true;
    if !route.tag {
      out := Toward(here, route.dest);
      return;
    }
    if route.inter.Some? && !route.passed && route.inter.value == here {
      route.passed := true;
    }
    if route.inter.None? {
      if here.x != route.dest.x && here.y == route.dest.y {
        var rows := Options(here.y, cols);
        if draw >= |rows| {
          return false, None;
        }
        route.inter := Some(Pos(here.x, rows[draw]));
      } else {
        var columns := Options(route.dest.x, cols);
        if draw >= |columns| {
          return false, None;
        }
        route.inter := Some(Pos(columns[draw], route.dest.y));
      }
      out := Toward(here, route.inter.value);
    } else if !route.passed {
      out := Toward(here, route.inter.value);
    } else {
      out := Toward(here, route.dest);
    }
  }
}
