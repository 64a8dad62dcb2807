/** ForceAnimation: node initialization on the phyllotaxis spiral, the
    list-change listener, the cooling of alpha and the tick that applies
    the forces in order and integrates velocities into positions. */
module Simulations {
  import opened Wrappers
  import opened ForceBase
  import ManyBodies
  import LinkForces
  import Collisions
  import PositionForces
  import CustomForces

  const InitialRadius: real := 10.0
  const VelocityDecay: real := 0.6
  const AlphaMin: real := 0.001
  const InitialAlpha: real := 0.99

  /** `PI * (3 - sqrt(5))`, the golden angle. */
  function InitialAngle(m: Maths): real {
    m.pi * (3.0 - m.sqrt(5.0))
  }

  /** `1 - pow(ALPHA_MIN, 1/300)`: the decay that takes alpha from 1 to
      ALPHA_MIN in 300 ticks. */
  function AlphaDecay(m: Maths): real {
    1.0 - m.pow(AlphaMin, 1.0 / 300.0)
  }

  /** The mathematical facts about the library functions that the spiral
      placement relies on. */
  ghost predicate Exact(m: Maths) {
    && (forall v: real :: Sq(m.cos(v)) + Sq(m.sin(v)) == 1.0)
    && (forall v: real | 0.0 <= v :: Sq(m.sqrt(v)) == v)
  }

  // ---------------------------------------------------------------------
  // Nodes as the listener finds them

  /** A node in the observable list before initialization: every number
      may be NaN (`None`), a pin may be null (`None`). */
  datatype Entry = Entry(index: int, x: Option<real>, y: Option<real>, vx: Option<real>, vy: Option<real>,
                         fx: Option<real>, fy: Option<real>)

  predicate Settled(e: Entry) {
    e.x.Some? && e.y.Some? && e.vx.Some? && e.vy.Some?
  }

  function Lift(n: Node): (e: Entry)
    ensures Settled(e)
  {
    Entry(n.index, Some(n.x), Some(n.y), Some(n.vx), Some(n.vy), n.fx, n.fy)
  }

  function Settle(e: Entry): (n: Node)
    requires Settled(e)
    ensures Lift(n) == e
  {
    Node(e.index, e.x.value, e.y.value, e.vx.value, e.vy.value, e.fx, e.fy)
  }

  /** A coordinate after snapping to its pin. */
  function Pinned(pin: Option<real>, v: Option<real>): (r: Option<real>)
    ensures pin.Some? ==> r == pin
    ensures pin.None? ==> r == v
  {
    if pin.Some? then pin else v
  }

  /** The `i`-th point of the spiral: radius `10 * sqrt(0.5 + i)`, angle
      `i` golden angles. */
  function Spiral(m: Maths, i: nat): (real, real) {
    (Product(SpiralRadius(m, i), m.cos(SpiralAngle(m, i))), Product(SpiralRadius(m, i), m.sin(SpiralAngle(m, i))))
  }

  function SpiralRadius(m: Maths, i: nat): real {
    InitialRadius * m.sqrt(0.5 + i as real)
  }

  function SpiralAngle(m: Maths, i: nat): real {
    i as real * InitialAngle(m)
  }

  /** `initializeNode(node, i)`: the node takes index `i`; pinned
      coordinates snap to their pins; a node with a NaN coordinate left is
      placed on the spiral (both coordinates, pins notwithstanding); a NaN
      velocity component zeroes both. */
  function InitializeNode(m: Maths, e: Entry, i: nat): (r: Entry)
    ensures Settled(r) && r.index == i && r.fx == e.fx && r.fy == e.fy
    ensures e.vx.Some? && e.vy.Some? ==> r.vx == e.vx && r.vy == e.vy
    ensures e.vx.None? || e.vy.None? ==> r.vx == Some(0.0) && r.vy == Some(0.0)
  {
    var x := Pinned(e.fx, e.x);
    var y := Pinned(e.fy, e.y);
    var p := if x.None? || y.None? then Spiral(m, i) else (x.value, y.value);
    var still := e.vx.Some? && e.vy.Some?;
    Entry(i, Some(p.0), Some(p.1), if still then e.vx else Some(0.0), if still then e.vy else Some(0.0), e.fx, e.fy)
  }

  /** A node that has both coordinates (or pins for them) keeps them, each
      snapped to its pin; one that lacks either lands on the spiral. */
  lemma InitializePlaces(m: Maths, e: Entry, i: nat)
    ensures var r := InitializeNode(m, e, i);
      && (Pinned(e.fx, e.x).Some? && Pinned(e.fy, e.y).Some? ==>
            r.x == Pinned(e.fx, e.x) && r.y == Pinned(e.fy, e.y))
      && (Pinned(e.fx, e.x).None? || Pinned(e.fy, e.y).None? ==>
            (r.x.value, r.y.value) == Spiral(m, i))
  {
  }

  /** Initializing twice at the same index is initializing once, unless
      the spiral overrode a pin the first time. */
  lemma InitializeIdempotent(m: Maths, e: Entry, i: nat)
    requires Pinned(e.fx, e.x).Some? && Pinned(e.fy, e.y).Some?
    ensures InitializeNode(m, InitializeNode(m, e, i), i) == InitializeNode(m, e, i)
  {
    InitializePlaces(m, e, i);
  }

  /** The spiral can override a pin: a node pinned horizontally at 5 but
      without a `y` is placed wholly on the spiral, so its `x` is the
      spiral's and not the pin; a second initialization snaps it back. */
  lemma SpiralOverridesPin(m: Maths)
    requires m.cos(0.0) == 1.0 && Sq(m.sqrt(0.5)) == 0.5
    ensures var e := Entry(0, None, None, None, None, Some(5.0), None);
      var r := InitializeNode(m, e, 0);
      && r.x != e.fx
      && InitializeNode(m, r, 0).x == e.fx
  {
    var s := m.sqrt(0.5);
    assert SpiralAngle(m, 0) == 0.0;
    assert Spiral(m, 0).0 == Product(10.0 * s, 1.0);
  }

  /** With exact library functions, the `i`-th spiral point lies at
      squared distance `100 * (0.5 + i)` from the origin. */
  lemma SpiralOnCircle(m: Maths, i: nat)
    requires Exact(m)
    ensures var p := Spiral(m, i); Sq(p.0) + Sq(p.1) == 100.0 * (0.5 + i as real)
  {
    var v := 0.5 + i as real;
    var a := SpiralAngle(m, i);
    assert Sq(m.sqrt(v)) == v;
    assert Sq(m.cos(a)) + Sq(m.sin(a)) == 1.0;
    SpiralDistance(m, i);
  }

  lemma SpiralDistance(m: Maths, i: nat)
    ensures var p := Spiral(m, i);
      var a := SpiralAngle(m, i);
      Sq(m.cos(a)) + Sq(m.sin(a)) == 1.0 ==>
        Sq(p.0) + Sq(p.1) == 100.0 * Sq(m.sqrt(0.5 + i as real))
  {
    var s := m.sqrt(0.5 + i as real);
    var a := SpiralAngle(m, i);
    var c, n := m.cos(a), m.sin(a);
    var r := SpiralRadius(m, i);
    var p := Spiral(m, i);
    if Sq(c) + Sq(n) == 1.0 {
      Polar(r, c, n);
      assert Sq(p.0) + Sq(p.1) == Sq(r);
      SquareScaled(InitialRadius, s);
      assert Sq(InitialRadius) == 100.0;
    }
  }

  /** A point `(r cos, r sin)` lies at squared distance `r^2`. */
  lemma Polar(r: real, c: real, n: real)
    requires Sq(c) + Sq(n) == 1.0
    ensures Sq(Product(r, c)) + Sq(Product(r, n)) == Sq(r)
  {
    SquareScaled(r, c);
    SquareScaled(r, n);
    assert Sq(r) * Sq(c) + Sq(r) * Sq(n) == Sq(r) * (Sq(c) + Sq(n));
  }

  lemma SquareScaled(a: real, b: real)
    ensures Sq(Product(a, b)) == Sq(a) * Sq(b)
  {
    assert (a * b) * (a * b) == (a * a) * (b * b);
  }

  /** So nodes placed at different indices never coincide: each lies on
      its own circle around the origin. */
  lemma SpiralDistinct(m: Maths, i: nat, j: nat)
    requires Exact(m) && i != j
    ensures Spiral(m, i) != Spiral(m, j)
  {
    SpiralOnCircle(m, i);
    SpiralOnCircle(m, j);
  }

  // ---------------------------------------------------------------------
  // The list-change listener

  /** One sub-change of a list change: `[from, to)` is the range of added
      elements in the new list. */
  datatype Change = Change(from: nat, to: nat, added: bool, removed: bool)

  predicate Within(cs: seq<Change>, n: nat) {
    forall c | c in cs :: c.from <= c.to <= n
  }

  /** Initializes the entries at positions `[from, to)` with their
      positions as indices. */
  function InitRange(m: Maths, es: seq<Entry>, from: nat, to: nat): (r: seq<Entry>)
    requires from <= to <= |es|
    ensures |r| == |es|
    ensures forall i | 0 <= i < |es| :: r[i] == (if from <= i < to then InitializeNode(m, es[i], i) else es[i])
  {
    seq(|es|, i requires 0 <= i < |es| => if from <= i < to then InitializeNode(m, es[i], i) else es[i])
  }

  predicate Added(cs: seq<Change>, i: nat) {
    exists c | c in cs :: c.added && c.from <= i < c.to
  }

  /** The listener as written: each added range is initialized; nothing
      else is looked at, so removals and insertions before the end leave
      the indices of the other nodes as they were. */
  function ListenAsWritten(m: Maths, es: seq<Entry>, cs: seq<Change>): (r: seq<Entry>)
    requires Within(cs, |es|)
    ensures |r| == |es|
    ensures forall i | 0 <= i < |es| && !Added(cs, i) :: r[i] == es[i]
    ensures forall i | 0 <= i < |es| && Added(cs, i) ::
      Settled(r[i]) && r[i].index == i && r[i].fx == es[i].fx && r[i].fy == es[i].fy
  {
    if |cs| == 0 then es
    else
      var c := cs[|cs| - 1];
      var front := ListenAsWritten(m, es, cs[..|cs| - 1]);
      assert forall c' | c' in cs[..|cs| - 1] :: c' in cs;
      assert forall i: nat :: Added(cs, i) <==> Added(cs[..|cs| - 1], i) || (c.added && c.from <= i < c.to);
      if c.added then InitRange(m, front, c.from, c.to) else front
  }

  /** Every node's index is its position. */
  predicate Positional(es: seq<Entry>) {
    forall i | 0 <= i < |es| :: es[i].index == i
  }

  /** Every node's index set to its position, nothing else changed. */
  function Reindex(es: seq<Entry>): (r: seq<Entry>)
    ensures |r| == |es| && Positional(r)
    ensures forall i | 0 <= i < |es| :: r[i] == es[i].(index := i)
  {
    seq(|es|, i requires 0 <= i < |es| => es[i].(index := i))
  }

  /** The listener with the invariant the forces rely on restored: added
      ranges are initialized as before, and every other node takes its
      new position as index. */
  function Listen(m: Maths, es: seq<Entry>, cs: seq<Change>): (r: seq<Entry>)
    requires Within(cs, |es|)
    ensures |r| == |es| && Positional(r)
    ensures forall i | 0 <= i < |es| && !Added(cs, i) :: r[i] == es[i].(index := i)
    ensures forall i | 0 <= i < |es| && Added(cs, i) :: Settled(r[i]) && r[i].fx == es[i].fx && r[i].fy == es[i].fy
  {
    Reindex(ListenAsWritten(m, es, cs))
  }

  /** A listener run on a list that already satisfies the invariant and
      changes nothing but appended nodes agrees with the source. */
  lemma ListenAgreesOnAppend(m: Maths, es: seq<Entry>, cs: seq<Change>)
    requires Within(cs, |es|)
    requires forall i | 0 <= i < |es| && !Added(cs, i) :: es[i].index == i
    ensures Listen(m, es, cs) == ListenAsWritten(m, es, cs)
  {
    var r := ListenAsWritten(m, es, cs);
    assert forall i | 0 <= i < |es| :: r[i].index == i;
  }

  /** Removing the first of three nodes indexed by position: the source's
      listener initializes nothing, so the node now first still carries
      index 1 while the force arrays, rebuilt by position, hold its data at
      0. The corrected listener gives it index 0. */
  lemma StaleIndexAfterRemoval(m: Maths, b: Node, c: Node)
    requires b.index == 1 && c.index == 2
    ensures var es := [Lift(b), Lift(c)];
      var cs := [Change(0, 0, false, true)];
      && ListenAsWritten(m, es, cs)[0].index == 1
      && !Positional(ListenAsWritten(m, es, cs))
      && Listen(m, es, cs)[0].index == 0
  {
    var es := [Lift(b), Lift(c)];
    var cs := [Change(0, 0, false, true)];
    assert !Added(cs, 0);
    assert ListenAsWritten(m, es, cs)[0] == es[0];
  }

  // ---------------------------------------------------------------------
  // Forces

  /** The forces of the library, each with its own state. */
  datatype Force =
    | Charge(charge: ManyBodies.ManyBody)
    | Links(links: LinkForces.LinkForce)
    | Collision(collide: Collisions.Collide)
    | Axial(axial: PositionForces.AxisForce)
    | Radial(radial: PositionForces.RadialForce)
    | Centre(cx: real, cy: real)

  /** The force's state covers the nodes it is applied to. */
  predicate Fits(f: Force, nodes: seq<Node>) {
    match f
    case Charge(c) => ManyBodies.Indexed(c, nodes)
    case Links(l) => LinkForces.Ready(l, nodes)
    case Collision(c) => Collisions.Indexed(c, nodes)
    case Axial(a) => |a.cells| >= |nodes|
    case Radial(r) => |r.cells| >= |nodes|
    case Centre(_, _) => true
  }

  /** Whether a force fits depends only on the shape of the node list. */
  lemma FitsKept(f: Force, a: seq<Node>, b: seq<Node>)
    requires SameShape(a, b) && Fits(f, a)
    ensures Fits(f, b)
  {
  }

  /** `force.force(alpha)` with the random draws threaded through. */
  function ApplyForce(m: Maths, rnd: Random, k: nat, f: Force, nodes: seq<Node>, alpha: real): (r: (seq<Node>, nat))
    requires Fits(f, nodes)
    ensures SameShape(nodes, r.0)
    ensures !f.Centre? ==> SamePlaces(nodes, r.0)
  {
    match f
    case Charge(c) => ManyBodies.ManyBodyForce(m, rnd, k, c, nodes, alpha)
    case Links(l) => LinkForces.LinkForceApply(m, rnd, k, l, nodes, alpha)
    case Collision(c) => Collisions.CollideForce(m, rnd, k, c, nodes)
    case Axial(a) => (PositionForces.AxisPull(a, nodes, alpha), k)
    case Radial(r) => (PositionForces.RadialPull(m, r, nodes, alpha), k)
    case Centre(cx, cy) => (PositionForces.Center(nodes, cx, cy), k)
  }

  predicate AllFit(fs: seq<Force>, nodes: seq<Node>) {
    forall i | 0 <= i < |fs| :: Fits(fs[i], nodes)
  }

  lemma AllFitKept(fs: seq<Force>, a: seq<Node>, b: seq<Node>)
    requires SameShape(a, b) && AllFit(fs, a)
    ensures AllFit(fs, b)
  {
    forall i | 0 <= i < |fs| ensures Fits(fs[i], b) {
      FitsKept(fs[i], a, b);
    }
  }

  /** The forces in list order, each on the result of the one before. */
  function ApplyForces(m: Maths, rnd: Random, k: nat, fs: seq<Force>, nodes: seq<Node>, alpha: real): (r: (seq<Node>, nat))
    requires AllFit(fs, nodes)
    ensures SameShape(nodes, r.0)
    ensures |fs| == 0 ==> r == (nodes, k)
    decreases |fs|
  {
    if |fs| == 0 then (nodes, k)
    else
      var s := ApplyForce(m, rnd, k, fs[0], nodes, alpha);
      AllFitKept(fs, nodes, s.0);
      ApplyForces(m, rnd, s.1, fs[1..], s.0, alpha)
  }

  // ---------------------------------------------------------------------
  // Integration and ticks

  /** The node loop of `tick`: velocities decay by 0.6; a pinned
      coordinate is set to its pin, a free one advances by the decayed
      velocity. */
  function Integrate(nodes: seq<Node>): (r: seq<Node>)
    ensures SameShape(nodes, r)
    ensures forall i | 0 <= i < |nodes| ::
      && r[i].vx == VelocityDecay * nodes[i].vx && r[i].vy == VelocityDecay * nodes[i].vy
      && (nodes[i].fx.Some? ==> r[i].x == nodes[i].fx.value)
      && (nodes[i].fy.Some? ==> r[i].y == nodes[i].fy.value)
      && (nodes[i].fx.None? ==> r[i].x - nodes[i].x == r[i].vx)
      && (nodes[i].fy.None? ==> r[i].y - nodes[i].y == r[i].vy)
  {
    seq(|nodes|, i requires 0 <= i < |nodes| =>
      var n := nodes[i];
      var vx, vy := VelocityDecay * n.vx, VelocityDecay * n.vy;
      n.(vx := vx, vy := vy,
         x := if n.fx.Some? then n.fx.value else n.x + vx,
         y := if n.fy.Some? then n.fy.value else n.y + vy))
  }

  /** The animation: its nodes, its forces, alpha and its target, and the
      number of random draws consumed so far. */
  datatype Simulation = Simulation(nodes: seq<Node>, forces: seq<Force>, alpha: real, alphaTarget: real, draws: nat)

  predicate Runnable(s: Simulation) {
    AllFit(s.forces, s.nodes)
  }

  /** `new ForceAnimation(nodes)`: `setAll` reports one added range
      covering the list, so every node is initialized at its position;
      alpha starts at 0.99 and its target at 0. */
  function NewSimulation(m: Maths, es: seq<Entry>): (s: Simulation)
    ensures |s.nodes| == |es| && Runnable(s)
    ensures forall i | 0 <= i < |es| :: Lift(s.nodes[i]) == InitializeNode(m, es[i], i)
    ensures s.alpha == InitialAlpha && s.alphaTarget == 0.0 && s.forces == []
  {
    var r := InitRange(m, es, 0, |es|);
    Simulation(seq(|es|, i requires 0 <= i < |es| => Settle(r[i])), [], InitialAlpha, 0.0, 0)
  }

  /** `force(f)`: the force joins the end of the list. */
  function AddForce(s: Simulation, f: Force): (r: Simulation)
    requires Runnable(s) && Fits(f, s.nodes)
    ensures Runnable(r) && r.nodes == s.nodes
    ensures |r.forces| == |s.forces| + 1 && r.forces[|s.forces|] == f
    ensures r.forces[..|s.forces|] == s.forces
  {
    s.(forces := s.forces + [f])
  }

  /** A list change as the customizable forces read it: each sub-change's
      range and whether it removed anything. */
  function Report(cs: seq<Change>): (r: seq<CustomForces.Change>)
    ensures |r| == |cs|
    ensures forall k | 0 <= k < |cs| :: r[k] == CustomForces.Change(cs[k].from, cs[k].to, cs[k].removed)
  {
    seq(|cs|, k requires 0 <= k < |cs| => CustomForces.Change(cs[k].from, cs[k].to, cs[k].removed))
  }

  lemma {:induction false} ReportInRange(cs: seq<Change>, n: nat)
    requires Within(cs, n)
    ensures CustomForces.RangesOk(Report(cs), n)
    decreases |cs|
  {
    if |cs| > 0 {
      assert Report(cs)[1..] == Report(cs[1..]);
      assert forall c | c in cs[1..] :: c in cs;
      ReportInRange(cs[1..], n);
    }
  }

  /** The forces whose `nodesChanged` renews per-node cells; the others
      inherit the empty listener of `Force`. */
  predicate Customizable(f: Force) {
    f.Collision? || f.Axial? || f.Radial?
  }

  /** Every node's index is its position. */
  predicate ByPosition(nodes: seq<Node>) {
    forall i | 0 <= i < |nodes| :: nodes[i].index == i
  }

  /** The force's own listener on the changed list: ManyBodyForce,
      LinkForce and CenterForce keep their state; CollideForce, XForce,
      YForce and RadialForce renew their cells as `nodesChanged` does,
      by position, with their current functions. */
  function Relist(f: Force, nodes: seq<Node>, steps: seq<CustomForces.Change>): (r: Force)
    requires CustomForces.RangesOk(steps, |nodes|)
    ensures !Customizable(f) ==> r == f
    ensures f.Collision? ==>
      && r.Collision? && r.collide.(radii := f.collide.radii) == f.collide
      && CustomForces.Renewed(f.collide.radii, r.collide.radii, nodes, steps, f.collide.radius, 0.0)
    ensures f.Axial? ==>
      && r.Axial? && r.axial.(cells := f.axial.cells) == f.axial
      && CustomForces.Renewed(f.axial.cells, r.axial.cells, nodes, steps,
           PositionForces.AxisInit(f.axial.target, f.axial.strength), PositionForces.AxisBlank)
    ensures f.Radial? ==>
      && r.Radial? && r.radial.(cells := f.radial.cells) == f.radial
      && CustomForces.Renewed(f.radial.cells, r.radial.cells, nodes, steps,
           PositionForces.RadialInit(f.radial.radius, f.radial.strength), PositionForces.RadialBlank)
    ensures Customizable(f) && ByPosition(nodes) ==> Fits(r, nodes)
  {
    match f
    case Collision(c) =>
      CustomForces.NodesChangedRenews(c.radii, nodes, steps, c.radius, 0.0);
      Collision(c.(radii := CustomForces.NodesChanged(c.radii, nodes, steps, c.radius, 0.0)))
    case Axial(a) =>
      var init := PositionForces.AxisInit(a.target, a.strength);
      CustomForces.NodesChangedRenews(a.cells, nodes, steps, init, PositionForces.AxisBlank);
      Axial(a.(cells := CustomForces.NodesChanged(a.cells, nodes, steps, init, PositionForces.AxisBlank)))
    case Radial(q) =>
      var init := PositionForces.RadialInit(q.radius, q.strength);
      CustomForces.NodesChangedRenews(q.cells, nodes, steps, init, PositionForces.RadialBlank);
      Radial(q.(cells := CustomForces.NodesChanged(q.cells, nodes, steps, init, PositionForces.RadialBlank)))
    case _ => f
  }

  /** A change of the node list: the new list and its change report. The
      simulation's listener, registered first, runs first: the corrected
      `Listen` initializes the added nodes and gives every node its
      position as index. Every force's own listener then runs on the
      initialized list. The nodes that were already there are settled. */
  function Update(m: Maths, s: Simulation, es: seq<Entry>, cs: seq<Change>): (r: Simulation)
    requires Within(cs, |es|)
    requires forall i | 0 <= i < |es| && !Added(cs, i) :: Settled(es[i])
    ensures |r.nodes| == |es| && ByPosition(r.nodes)
    ensures forall i | 0 <= i < |es| && !Added(cs, i) :: Lift(r.nodes[i]) == es[i].(index := i)
    ensures forall i | 0 <= i < |es| && Added(cs, i) :: r.nodes[i].fx == es[i].fx && r.nodes[i].fy == es[i].fy
    ensures r.alpha == s.alpha && r.alphaTarget == s.alphaTarget && r.draws == s.draws
    ensures CustomForces.RangesOk(Report(cs), |es|) && |r.forces| == |s.forces|
    ensures forall i | 0 <= i < |s.forces| :: r.forces[i] == Relist(s.forces[i], r.nodes, Report(cs))
    ensures (forall i | 0 <= i < |s.forces| && !Customizable(s.forces[i]) :: Fits(s.forces[i], r.nodes)) ==> Runnable(r)
  {
    var l := Listen(m, es, cs);
    forall i | 0 <= i < |es| ensures Settled(l[i]) {
      if !Added(cs, i) {
        assert Settled(es[i]);
      }
    }
    var nodes := seq(|es|, i requires 0 <= i < |es| => Settle(l[i]));
    assert forall i | 0 <= i < |es| :: Lift(nodes[i]) == l[i];
    ReportInRange(cs, |es|);
    var fs := seq(|s.forces|, i requires 0 <= i < |s.forces| => Relist(s.forces[i], nodes, Report(cs)));
    Simulation(nodes, fs, s.alpha, s.alphaTarget, s.draws)
  }

  /** Every pinned coordinate equals its pin. */
  predicate AtPins(nodes: seq<Node>) {
    forall i | 0 <= i < |nodes| ::
      && (nodes[i].fx.Some? ==> nodes[i].x == nodes[i].fx.value)
      && (nodes[i].fy.Some? ==> nodes[i].y == nodes[i].fy.value)
  }

  /** One step of alpha towards its target. */
  function Cool(alpha: real, target: real, decay: real): (r: real)
    ensures target - r == Product(target - alpha, 1.0 - decay)
  {
    alpha + (target - alpha) * decay
  }

  /** One iteration of `tick`: cool, apply every force, integrate. */
  function Step(m: Maths, rnd: Random, s: Simulation): (r: Simulation)
    requires Runnable(s)
    ensures Runnable(r) && SameShape(s.nodes, r.nodes)
    ensures r.forces == s.forces && r.alphaTarget == s.alphaTarget
    ensures r.alpha == Cool(s.alpha, s.alphaTarget, AlphaDecay(m))
    ensures AtPins(r.nodes)
  {
    var alpha := Cool(s.alpha, s.alphaTarget, AlphaDecay(m));
    var f := ApplyForces(m, rnd, s.draws, s.forces, s.nodes, alpha);
    var nodes := Integrate(f.0);
    AllFitKept(s.forces, s.nodes, nodes);
    Simulation(nodes, s.forces, alpha, s.alphaTarget, f.1)
  }

  /** `tick(iterations)`. */
  function Tick(m: Maths, rnd: Random, s: Simulation, iterations: int): (r: Simulation)
    requires Runnable(s)
    ensures Runnable(r) && SameShape(s.nodes, r.nodes)
    ensures r.forces == s.forces && r.alphaTarget == s.alphaTarget
    ensures iterations <= 0 ==> r == s
    ensures iterations >= 0 ==> r.alpha == Cooled(s.alpha, s.alphaTarget, AlphaDecay(m), iterations)
    decreases iterations
  {
    if iterations <= 0 then s
    else
      var t := Step(m, rnd, s);
      Tick(m, rnd, t, iterations - 1)
  }

  /** `interpolate`: one tick, then the animation stops once alpha has
      fallen below ALPHA_MIN. The flag says whether it keeps running. */
  function Interpolate(m: Maths, rnd: Random, s: Simulation): (r: (Simulation, bool))
    requires Runnable(s)
    ensures Runnable(r.0) && r.0.forces == s.forces
    ensures r.0 == Step(m, rnd, s)
    ensures r.1 <==> AlphaMin <= r.0.alpha
  {
    var t := Tick(m, rnd, s, 1);
    (t, !(t.alpha < AlphaMin))
  }

  // ---------------------------------------------------------------------
  // Properties of ticks

  /** Alpha after `n` steps towards `target`. */
  function Cooled(alpha: real, target: real, decay: real, n: nat): real
    decreases n
  {
    if n == 0 then alpha else Cooled(Cool(alpha, target, decay), target, decay, n - 1)
  }

  function Power(b: real, n: nat): real {
    if n == 0 then 1.0 else Product(b, Power(b, n - 1))
  }

  lemma ProductAssociates(a: real, b: real, c: real)
    ensures Product(Product(a, b), c) == Product(a, Product(b, c))
  {
    assert (a * b) * c == a * (b * c);
  }

  /** Alpha approaches its target geometrically: after `n` steps the gap
      is the initial gap times `(1 - decay)^n`. */
  lemma {:induction false} CooledClosedForm(alpha: real, target: real, decay: real, n: nat)
    ensures target - Cooled(alpha, target, decay, n) == Product(target - alpha, Power(1.0 - decay, n))
    decreases n
  {
    if n > 0 {
      var b := 1.0 - decay;
      CooledClosedForm(Cool(alpha, target, decay), target, decay, n - 1);
      ProductAssociates(target - alpha, b, Power(b, n - 1));
    }
  }

  /** With the decay in (0, 1], alpha never overshoots its target: each
      step lands between the current alpha and the target, and a step
      with decay below 1 never reaches a target it did not start at. */
  lemma CoolBetween(alpha: real, target: real, decay: real)
    requires 0.0 < decay <= 1.0
    ensures alpha <= target ==> alpha <= Cool(alpha, target, decay) <= target
    ensures target <= alpha ==> target <= Cool(alpha, target, decay) <= alpha
    ensures alpha != target && decay < 1.0 ==> Cool(alpha, target, decay) != target
  {
    var g := target - alpha;
    var r := Cool(alpha, target, decay);
    assert r - alpha == Product(g, decay);
    if alpha < target {
      assert 0.0 < Product(g, decay);
    } else if target < alpha {
      assert r - alpha == -Product(-g, decay);
      assert target - r == -Product(-g, 1.0 - decay);
    }
  }

  /** So alpha stays at least ALPHA_MIN when it starts there and its target
      is there too: such an animation never stops. */
  lemma {:induction false} KeepsRunning(alpha: real, target: real, decay: real, n: nat)
    requires 0.0 < decay <= 1.0
    requires AlphaMin <= alpha && AlphaMin <= target
    ensures AlphaMin <= Cooled(alpha, target, decay, n)
    decreases n
  {
    if n > 0 {
      CoolBetween(alpha, target, decay);
      KeepsRunning(Cool(alpha, target, decay), target, decay, n - 1);
    }
  }

  /** With target 0, an animation started at 0.99 has alpha
      `0.99 * ALPHA_MIN` once `(1 - decay)^n` has come down to ALPHA_MIN
      (after 300 ticks for an exact `pow`), whatever its forces: the
      `interpolate` of that tick stops it. */
  lemma CoolsDown(m: Maths, rnd: Random, s: Simulation, n: nat)
    requires Runnable(s) && s.alpha == InitialAlpha && s.alphaTarget == 0.0
    requires Power(1.0 - AlphaDecay(m), n) == AlphaMin
    ensures Tick(m, rnd, s, n).alpha == InitialAlpha * AlphaMin < AlphaMin
  {
    CooledClosedForm(s.alpha, 0.0, AlphaDecay(m), n);
  }

  /** After at least one tick every pinned coordinate equals its pin. */
  lemma {:induction false} PinsHold(m: Maths, rnd: Random, s: Simulation, n: nat)
    requires Runnable(s) && n > 0
    ensures AtPins(Tick(m, rnd, s, n).nodes)
    decreases n
  {
    var t := Step(m, rnd, s);
    assert Tick(m, rnd, s, n) == Tick(m, rnd, t, n - 1);
    if n > 1 {
      PinsHold(m, rnd, t, n - 1);
    }
  }

  /** Without forces, nodes at rest whose pinned coordinates sit on their
      pins stay exactly where they are. */
  lemma RestIsStable(m: Maths, rnd: Random, s: Simulation)
    requires s.forces == []
    requires AtPins(s.nodes)
    requires forall i | 0 <= i < |s.nodes| :: s.nodes[i].vx == 0.0 && s.nodes[i].vy == 0.0
    ensures Step(m, rnd, s).nodes == s.nodes
  {
    var r := Step(m, rnd, s);
    assert r.nodes == Integrate(s.nodes);
    assert forall i | 0 <= i < |s.nodes| :: r.nodes[i] == s.nodes[i];
  }
}
