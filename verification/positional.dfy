/** The positional forces: XForce and YForce (one definition, chosen by
    axis), RadialForce and CenterForce. */
module PositionForces {
  import opened Wrappers
  import opened ForceBase
  import opened CustomForces

  // ---------------------------------------------------------------------
  // XForce / YForce

  datatype Axis = Horizontal | Vertical

  /** The per-node cells of XForce (`xz`, `strengths`) or YForce (`yz`,
      `strengths`): the target coordinate, `None` for NaN, and the
      strength. */
  datatype AxisCell = AxisCell(target: Option<real>, strength: real)

  /** A new Java array holds zeros. */
  const AxisBlank: AxisCell := AxisCell(Some(0.0), 0.0)

  datatype AxisForce = AxisForce(axis: Axis, target: Node -> Option<real>, strength: Node -> real, cells: seq<AxisCell>)

  /** The strength of the two-argument constructor. */
  function DefaultAxisStrength(n: Node): real {
    0.1
  }

  /** `initNode`: the target is stored; the strength is 0 for a NaN target
      and `strength(node)` otherwise. */
  function AxisInit(target: Node -> Option<real>, strength: Node -> real): Node -> AxisCell {
    (n: Node) => var t := target(n); AxisCell(t, if t.None? then 0.0 else strength(n))
  }

  /** The constructor: base null check, then `initialize()` over arrays of
      the default capacity. */
  function NewAxisForce(axis: Axis, nodes: Option<seq<Node>>, target: Node -> Option<real>, strength: Node -> real): (r: Result<AxisForce, ForceError>)
    ensures nodes.None? <==> r.Err?
    ensures r.Ok? ==> r.value.axis == axis && |r.value.cells| == Max(DefaultCapacity, |nodes.value|)
    ensures r.Ok? ==> forall i | 0 <= i < |nodes.value| ::
      && r.value.cells[i].target == target(nodes.value[i])
      && r.value.cells[i].strength == (if target(nodes.value[i]).None? then 0.0 else strength(nodes.value[i]))
  {
    var list :- Attach(nodes);
    var cells := Initialize(seq(DefaultCapacity, _ => AxisBlank), list, AxisInit(target, strength), AxisBlank);
    Ok(AxisForce(axis, target, strength, cells))
  }

  /** The two-argument constructor: every node with a target pulls with
      the default strength 0.1, every node without one with strength 0. */
  function NewDefaultAxisForce(axis: Axis, nodes: Option<seq<Node>>, target: Node -> Option<real>): (r: Result<AxisForce, ForceError>)
    ensures nodes.None? <==> r.Err?
    ensures r.Ok? ==> r.value.axis == axis && |r.value.cells| >= |nodes.value|
    ensures r.Ok? ==> forall i | 0 <= i < |nodes.value| ::
      && r.value.cells[i].target == target(nodes.value[i])
      && r.value.cells[i].strength == (if target(nodes.value[i]).Some? then 0.1 else 0.0)
  {
    NewAxisForce(axis, nodes, target, DefaultAxisStrength)
  }

  function Along(n: Node, axis: Axis): real {
    if axis == Horizontal then n.x else n.y
  }

  function Speed(n: Node, axis: Axis): real {
    if axis == Horizontal then n.vx else n.vy
  }

  function Other(n: Node, axis: Axis): real {
    if axis == Horizontal then n.vy else n.vx
  }

  /** The velocity change of one node: towards the target in proportion to
      the distance; a NaN target (strength 0) gives none. */
  function AxisDelta(c: AxisCell, at: real, alpha: real): real {
    if c.target.None? then 0.0 else (c.target.value - at) * c.strength * alpha
  }

  /** `force(alpha)`: each node's velocity along the axis moves towards
      its target; nothing else changes. */
  function AxisPull(f: AxisForce, nodes: seq<Node>, alpha: real): (r: seq<Node>)
    requires |f.cells| >= |nodes|
    ensures SamePlaces(nodes, r)
    ensures forall i | 0 <= i < |nodes| ::
      && Other(r[i], f.axis) == Other(nodes[i], f.axis)
      && Speed(r[i], f.axis) - Speed(nodes[i], f.axis) == AxisDelta(f.cells[i], Along(nodes[i], f.axis), alpha)
  {
    seq(|nodes|, i requires 0 <= i < |nodes| =>
      var d := AxisDelta(f.cells[i], Along(nodes[i], f.axis), alpha);
      if f.axis == Horizontal then Push(nodes, i, d, 0.0)[i] else Push(nodes, i, 0.0, d)[i])
  }

  /** A node already at its target, or with no target, keeps its velocity;
      any other node's velocity change points towards the target when the
      strength and alpha are positive. */
  lemma AxisPullTowardsTarget(f: AxisForce, nodes: seq<Node>, alpha: real, i: nat)
    requires |f.cells| >= |nodes| && i < |nodes|
    ensures var c := f.cells[i];
      var r := AxisPull(f, nodes, alpha);
      && (c.target.None? || c.target.value == Along(nodes[i], f.axis) ==> r[i] == nodes[i])
      && (c.target.Some? && c.strength > 0.0 && alpha > 0.0 ==>
            (Speed(r[i], f.axis) - Speed(nodes[i], f.axis)) * (c.target.value - Along(nodes[i], f.axis)) >= 0.0)
  {
    var c := f.cells[i];
    var r := AxisPull(f, nodes, alpha);
    if c.target.Some? && c.strength > 0.0 && alpha > 0.0 {
      var g := c.target.value - Along(nodes[i], f.axis);
      assert Speed(r[i], f.axis) - Speed(nodes[i], f.axis) == g * c.strength * alpha;
      ScaledSquare(g, c.strength, alpha);
    }
  }

  lemma ScaledSquare(g: real, s: real, a: real)
    requires s > 0.0 && a > 0.0
    ensures g * s * a * g >= 0.0
  {
    assert s * a > 0.0;
    assert g * s * a * g == (g * g) * (s * a);
  }

  /** The source's arithmetic for one node: a NaN target yields a NaN
      velocity (`None`), because NaN times the zero strength is NaN. */
  function AxisDeltaAsWritten(c: AxisCell, at: real, alpha: real): (d: Option<real>)
    ensures c.target.None? <==> d.None?
  {
    if c.target.None? then None else Some((c.target.value - at) * c.strength * alpha)
  }

  /** The change of one node, as written, agrees with the model wherever it
      is a number. */
  lemma AxisDeltaAgrees(c: AxisCell, at: real, alpha: real)
    ensures AxisDeltaAsWritten(c, at, alpha).Some? ==> AxisDeltaAsWritten(c, at, alpha).value == AxisDelta(c, at, alpha)
  {
  }

  /** A node whose target function returns NaN: the stored strength is 0,
      yet as written its velocity becomes NaN; the model leaves it alone. */
  lemma AxisNaNTarget(strength: Node -> real, n: Node, alpha: real)
    ensures var c := AxisInit((m: Node) => None, strength)(n);
      && c.strength == 0.0
      && AxisDeltaAsWritten(c, n.x, alpha) == None
      && AxisDelta(c, n.x, alpha) == 0.0
  {
  }

  // ---------------------------------------------------------------------
  // RadialForce

  /** The per-node cells of RadialForce (`radiuses`, `strengths`). */
  datatype RadialCell = RadialCell(radius: Option<real>, strength: real)

  const RadialBlank: RadialCell := RadialCell(Some(0.0), 0.0)

  datatype RadialForce = RadialForce(radius: Node -> Option<real>, strength: Node -> real, cx: real, cy: real, cells: seq<RadialCell>)

  function DefaultRadialStrength(n: Node): real {
    0.1
  }

  function RadialInit(radius: Node -> Option<real>, strength: Node -> real): Node -> RadialCell {
    (n: Node) => var r := radius(n); RadialCell(r, if r.None? then 0.0 else strength(n))
  }

  /** The four-argument constructor; the others pass the centre (0, 0)
      and, for a number, the constant radius function. */
  function NewRadialForce(nodes: Option<seq<Node>>, radius: Node -> Option<real>, cx: real, cy: real): (r: Result<RadialForce, ForceError>)
    ensures nodes.None? <==> r.Err?
    ensures r.Ok? ==> r.value.cx == cx && r.value.cy == cy && |r.value.cells| == Max(DefaultCapacity, |nodes.value|)
    ensures r.Ok? ==> forall i | 0 <= i < |nodes.value| ::
      && r.value.cells[i].radius == radius(nodes.value[i])
      && r.value.cells[i].strength == (if radius(nodes.value[i]).None? then 0.0 else 0.1)
  {
    var list :- Attach(nodes);
    var cells := Initialize(seq(DefaultCapacity, _ => RadialBlank), list, RadialInit(radius, DefaultRadialStrength), RadialBlank);
    Ok(RadialForce(radius, DefaultRadialStrength, cx, cy, cells))
  }

  /** `setRadius`: the new function, then `initialize()`. */
  function SetRadius(f: RadialForce, nodes: seq<Node>, radius: Node -> Option<real>): (r: RadialForce)
    ensures r.cx == f.cx && r.cy == f.cy && r.strength == f.strength && r.radius == radius
    ensures |r.cells| >= |nodes|
    ensures forall i | 0 <= i < |nodes| :: r.cells[i] == RadialInit(radius, f.strength)(nodes[i])
  {
    f.(radius := radius, cells := Initialize(f.cells, nodes, RadialInit(radius, f.strength), RadialBlank))
  }

  /** `setStrength`: the new function, then `initialize()`. */
  function SetStrength(f: RadialForce, nodes: seq<Node>, strength: Node -> real): (r: RadialForce)
    ensures r.cx == f.cx && r.cy == f.cy && r.radius == f.radius && r.strength == strength
    ensures |r.cells| >= |nodes|
    ensures forall i | 0 <= i < |nodes| :: r.cells[i] == RadialInit(f.radius, strength)(nodes[i])
  {
    f.(strength := strength, cells := Initialize(f.cells, nodes, RadialInit(f.radius, strength), RadialBlank))
  }

  /** `setX` and `setY` move the centre and leave the cells alone. */
  function SetCentre(f: RadialForce, cx: real, cy: real): (r: RadialForce)
    ensures r.cells == f.cells && r.cx == cx && r.cy == cy
  {
    f.(cx := cx, cy := cy)
  }

  /** The offset of a node from the centre, each zero component replaced
      by 1e-6. */
  function Offset(f: RadialForce, n: Node): (d: (real, real))
    ensures d.0 != 0.0 && d.1 != 0.0
  {
    (NotZero(n.x - f.cx, 0.000001), NotZero(n.y - f.cy, 0.000001))
  }

  /** The length of a non-zero offset, which is positive. */
  function Distance(m: Maths, d: (real, real)): (r: real)
    requires d.0 != 0.0
    ensures r > 0.0
  {
    m.sqrt(Sq(d.0) + Sq(d.1))
  }

  /** The factor `k` by which the offset is scaled: proportional to how
      far the node is from its ring; 0 for a NaN radius (strength 0). */
  function RadialScale(m: Maths, f: RadialForce, c: RadialCell, n: Node, alpha: real): real {
    var dist := Distance(m, Offset(f, n));
    if c.radius.None? then 0.0 else (c.radius.value - dist) * c.strength * alpha / dist
  }

  /** One node under the radial force: its velocity moves along its
      offset from the centre by the factor `RadialScale`. */
  function RadialNode(m: Maths, f: RadialForce, c: RadialCell, n: Node, alpha: real): (r: Node)
    ensures r.index == n.index && r.x == n.x && r.y == n.y && r.fx == n.fx && r.fy == n.fy
  {
    var d := Offset(f, n);
    var k := RadialScale(m, f, c, n, alpha);
    n.(vx := n.vx + d.0 * k, vy := n.vy + d.1 * k)
  }

  /** `force(alpha)`: every node in turn; positions do not change. */
  function RadialPull(m: Maths, f: RadialForce, nodes: seq<Node>, alpha: real): (r: seq<Node>)
    requires |f.cells| >= |nodes|
    ensures SamePlaces(nodes, r)
    ensures forall i | 0 <= i < |nodes| :: r[i] == RadialNode(m, f, f.cells[i], nodes[i], alpha)
  {
    seq(|nodes|, i requires 0 <= i < |nodes| => RadialNode(m, f, f.cells[i], nodes[i], alpha))
  }

  /** A node exactly on its ring, or without a ring, keeps its velocity. A
      node inside its ring is pushed outwards and one outside it inwards
      (for positive strength and alpha): the scale factor has the sign of
      `radius - distance`. */
  lemma RadialPullTowardsRing(m: Maths, f: RadialForce, c: RadialCell, n: Node, alpha: real)
    ensures var dist := Distance(m, Offset(f, n));
      var k := RadialScale(m, f, c, n, alpha);
      && (c.radius.None? || c.radius.value == dist ==> k == 0.0)
      && (c.radius.Some? && c.strength > 0.0 && alpha > 0.0 ==>
            (k > 0.0 <==> c.radius.value > dist) && (k < 0.0 <==> c.radius.value < dist))
  {
    var dist := Distance(m, Offset(f, n));
    if c.radius.Some? && c.strength > 0.0 && alpha > 0.0 {
      var g := c.radius.value - dist;
      var p := c.strength * alpha / dist;
      assert c.strength * alpha > 0.0;
      assert p > 0.0;
      assert RadialScale(m, f, c, n, alpha) == g * p;
      SignOfProduct(g, p);
    }
  }

  /** Hence a node on its ring is left exactly as it was. */
  lemma RadialOnRingStill(m: Maths, f: RadialForce, nodes: seq<Node>, alpha: real, i: nat)
    requires |f.cells| >= |nodes| && i < |nodes|
    requires f.cells[i].radius == Some(Distance(m, Offset(f, nodes[i])))
    ensures RadialPull(m, f, nodes, alpha)[i] == nodes[i]
  {
    RadialPullTowardsRing(m, f, f.cells[i], nodes[i], alpha);
    var d := Offset(f, nodes[i]);
    assert d.0 * 0.0 == 0.0 && d.1 * 0.0 == 0.0;
  }

  lemma SignOfProduct(g: real, p: real)
    requires p > 0.0
    ensures g * p > 0.0 <==> g > 0.0
    ensures g * p < 0.0 <==> g < 0.0
  {
  }

  /** The source's arithmetic for one node: a NaN radius makes both
      velocity components NaN (`None`), the zero strength notwithstanding. */
  function RadialDeltaAsWritten(m: Maths, f: RadialForce, c: RadialCell, n: Node, alpha: real): (d: Option<(real, real)>)
    ensures c.radius.None? <==> d.None?
  {
    if c.radius.None? then None
    else
      var d := Offset(f, n);
      var k := RadialScale(m, f, c, n, alpha);
      Some((d.0 * k, d.1 * k))
  }

  /** Wherever the source's arithmetic yields numbers they are the model's
      changes; a NaN radius, which the source turns into NaN velocities,
      changes nothing in the model. */
  lemma RadialDeltaAgrees(m: Maths, f: RadialForce, c: RadialCell, n: Node, alpha: real)
    ensures var d := RadialDeltaAsWritten(m, f, c, n, alpha);
      var k := RadialScale(m, f, c, n, alpha);
      && (d.Some? ==> d.value.0 == Offset(f, n).0 * k && d.value.1 == Offset(f, n).1 * k)
      && (d.None? ==> k == 0.0)
  {
  }

  // ---------------------------------------------------------------------
  // CenterForce

  function SumX(nodes: seq<Node>): real {
    if |nodes| == 0 then 0.0 else SumX(nodes[..|nodes| - 1]) + nodes[|nodes| - 1].x
  }

  function SumY(nodes: seq<Node>): real {
    if |nodes| == 0 then 0.0 else SumY(nodes[..|nodes| - 1]) + nodes[|nodes| - 1].y
  }

  /** Every node moved by `(-dx, -dy)`. */
  function Translate(nodes: seq<Node>, dx: real, dy: real): (r: seq<Node>)
    ensures |r| == |nodes|
    ensures forall i | 0 <= i < |nodes| :: r[i] == nodes[i].(x := nodes[i].x - dx, y := nodes[i].y - dy)
  {
    seq(|nodes|, i requires 0 <= i < |nodes| => nodes[i].(x := nodes[i].x - dx, y := nodes[i].y - dy))
  }

  /** `force(alpha)`: the offset of the centroid from the centre is
      subtracted from every position. An empty list is left as it is. */
  function Center(nodes: seq<Node>, cx: real, cy: real): (r: seq<Node>)
    ensures SameShape(nodes, r)
    ensures |nodes| == 0 ==> r == nodes
  {
    if |nodes| == 0 then nodes
    else
      var n := |nodes| as real;
      Translate(nodes, SumX(nodes) / n - cx, SumY(nodes) / n - cy)
  }

  lemma SumTranslate(nodes: seq<Node>, dx: real, dy: real)
    ensures SumX(Translate(nodes, dx, dy)) == SumX(nodes) - |nodes| as real * dx
    ensures SumY(Translate(nodes, dx, dy)) == SumY(nodes) - |nodes| as real * dy
  {
    SumXTranslate(nodes, dx, dy);
    SumYTranslate(nodes, dx, dy);
  }

  /** Translating a list and dropping its last node commute. */
  lemma TranslateFront(nodes: seq<Node>, dx: real, dy: real)
    requires |nodes| > 0
    ensures Translate(nodes, dx, dy)[..|nodes| - 1] == Translate(nodes[..|nodes| - 1], dx, dy)
  {
  }

  lemma {:induction false} SumXTranslate(nodes: seq<Node>, dx: real, dy: real)
    ensures SumX(Translate(nodes, dx, dy)) == SumX(nodes) - |nodes| as real * dx
  {
    if |nodes| > 0 {
      var front := nodes[..|nodes| - 1];
      SumXTranslate(front, dx, dy);
      TranslateFront(nodes, dx, dy);
    }
  }

  lemma {:induction false} SumYTranslate(nodes: seq<Node>, dx: real, dy: real)
    ensures SumY(Translate(nodes, dx, dy)) == SumY(nodes) - |nodes| as real * dy
  {
    if |nodes| > 0 {
      var front := nodes[..|nodes| - 1];
      SumYTranslate(front, dx, dy);
      TranslateFront(nodes, dx, dy);
    }
  }

  /** After centring, the centroid of a non-empty list is the centre. */
  lemma CenterHitsCentre(nodes: seq<Node>, cx: real, cy: real)
    requires |nodes| > 0
    ensures var r := Center(nodes, cx, cy);
      SumX(r) / |r| as real == cx && SumY(r) / |r| as real == cy
  {
    var n := |nodes| as real;
    var sx, sy := SumX(nodes), SumY(nodes);
    var dx, dy := sx / n - cx, sy / n - cy;
    SumTranslate(nodes, dx, dy);
    var r := Center(nodes, cx, cy);
    assert r == Translate(nodes, dx, dy);
    MeanAfterShift(sx, n, cx, SumX(r));
    MeanAfterShift(sy, n, cy, SumY(r));
  }

  lemma MeanAfterShift(s: real, n: real, c: real, t: real)
    requires n > 0.0 && t == s - n * (s / n - c)
    ensures t / n == c
  {
    assert n * (s / n - c) == s - n * c;
    assert (n * c) / n == c;
  }

  /** Centring is one translation of all nodes: differences between
      nodes, velocities, pins and indices are kept. */
  lemma CenterIsTranslation(nodes: seq<Node>, cx: real, cy: real)
    ensures var r := Center(nodes, cx, cy);
      && (forall i, j | 0 <= i < |nodes| && 0 <= j < |nodes| ::
            r[i].x - r[j].x == nodes[i].x - nodes[j].x && r[i].y - r[j].y == nodes[i].y - nodes[j].y)
      && (forall i | 0 <= i < |nodes| ::
            r[i].vx == nodes[i].vx && r[i].vy == nodes[i].vy && r[i].index == nodes[i].index
            && r[i].fx == nodes[i].fx && r[i].fy == nodes[i].fy)
  {
  }

  /** Nodes whose centroid already is the centre do not move, and centring
      twice is centring once. */
  lemma CenterFixesCentred(nodes: seq<Node>, cx: real, cy: real)
    requires |nodes| > 0
    ensures SumX(nodes) / |nodes| as real == cx && SumY(nodes) / |nodes| as real == cy ==> Center(nodes, cx, cy) == nodes
    ensures Center(Center(nodes, cx, cy), cx, cy) == Center(nodes, cx, cy)
  {
    var r := Center(nodes, cx, cy);
    CenterHitsCentre(nodes, cx, cy);
    assert Translate(r, 0.0, 0.0) == r;
    if SumX(nodes) / |nodes| as real == cx && SumY(nodes) / |nodes| as real == cy {
      assert Translate(nodes, 0.0, 0.0) == nodes;
    }
  }
}
