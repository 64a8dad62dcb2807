/** CollideForce: nodes are disks that push each other apart when their
    look-ahead positions (position plus velocity) overlap. Each iteration
    builds a quadtree over the look-ahead positions, stores in every tree
    node the largest radius below it, and visits the tree once per node,
    pruning quadrants too far away to touch it. */
module Collisions {
  import opened Wrappers
  import opened QuadNodes
  import opened QuadTrees
  import opened QuadVisits
  import opened ForceBase
  import CustomForces

  /** The force's parameters and its per-node radius array. */
  datatype Collide = Collide(radius: Node -> real, strength: real, iterations: int, radii: seq<real>)

  /** The radius function of the one-argument constructor. */
  function UnitRadius(n: Node): real {
    1.0
  }

  /** The constructor: strength 1, one iteration, and `initialize()`,
      which gives every node its radius by position. */
  function NewCollide(nodes: Option<seq<Node>>, radius: Node -> real): (r: Result<Collide, ForceError>)
    ensures nodes.None? <==> r.Err?
    ensures r.Ok? ==> r.value.strength == 1.0 && r.value.iterations == 1 && r.value.radius == radius
    ensures r.Ok? ==> |r.value.radii| == CustomForces.Max(CustomForces.DefaultCapacity, |nodes.value|)
    ensures r.Ok? ==> forall i | 0 <= i < |nodes.value| :: r.value.radii[i] == radius(nodes.value[i])
  {
    var n :- Attach(nodes);
    var blank := seq(CustomForces.DefaultCapacity, _ => 0.0);
    Ok(Collide(radius, 1.0, 1, CustomForces.Initialize(blank, n, radius, 0.0)))
  }

  /** `setRadius` replaces the function only: the stored radii stay until
      the node list next changes. */
  function SetRadius(f: Collide, radius: Node -> real): (r: Collide)
    ensures r.radius == radius && r.radii == f.radii
    ensures r.strength == f.strength && r.iterations == f.iterations
  {
    f.(radius := radius)
  }

  /** `radii[nodes[d].index]`. */
  function Radius(f: Collide, nodes: seq<Node>, d: nat): real {
    if d < |nodes| && 0 <= nodes[d].index < |f.radii| then f.radii[nodes[d].index] else 0.0
  }

  /** Every node's `index` is a valid position of the radius array (the
      source throws otherwise). */
  predicate Indexed(f: Collide, nodes: seq<Node>) {
    forall k | 0 <= k < |nodes| :: 0 <= nodes[k].index < |f.radii|
  }

  /** The look-ahead coordinates the tree is built on. */
  function LookAhead(nodes: seq<Node>): Axes<nat> {
    Axes((d: nat) => if d < |nodes| then Some(nodes[d].x + nodes[d].vx) else None,
         (d: nat) => if d < |nodes| then Some(nodes[d].y + nodes[d].vy) else None)
  }

  type Tree = QNode<nat, real>

  // ---------------------------------------------------------------------
  // prepare (visitAfter)

  /** The first datum of every leaf below `q`: the data `prepare` and the
      visitor look at (chained data are never examined). */
  function Heads(q: Tree): seq<nat>
    decreases q, 1
  {
    match q
    case Leaf(d, _, _) => [d]
    case Internal(kids, _) => KidsHeads(q, |kids|)
  }

  function KidsHeads(q: Tree, n: nat): seq<nat>
    requires q.Internal? && n <= |q.kids|
    decreases q, 0, n
  {
    if n == 0 then [] else KidsHeads(q, n - 1) + (if q.kids[n - 1].Some? then Heads(q.kids[n - 1].value) else [])
  }

  /** The child loop of `prepare`: the largest `r` among the first `n`
      present children, starting from 0. */
  function KidsMax(q: Tree, n: nat): (r: real)
    requires q.Internal? && n <= |q.kids|
    ensures r >= 0.0
    ensures forall i | 0 <= i < n && q.kids[i].Some? :: q.kids[i].value.aux <= r
    ensures r == 0.0 || exists i | 0 <= i < n :: q.kids[i].Some? && q.kids[i].value.aux == r
  {
    if n == 0 then 0.0
    else
      var m := KidsMax(q, n - 1);
      var o := q.kids[n - 1];
      if o.Some? && o.value.aux > m then o.value.aux else m
  }

  /** `prepare`: a leaf's radius is the radius of its first datum; an
      internal node's is the largest of its children's, and at least 0. */
  function Prepare(f: Collide, nodes: seq<Node>, q: Tree): real {
    if q.Leaf? then Radius(f, nodes, q.data) else KidsMax(q, |q.kids|)
  }

  function Preparer(f: Collide, nodes: seq<Node>): (Tree, Box) -> real {
    (q: Tree, b: Box) => Prepare(f, nodes, q)
  }

  /** The radius `prepare` stores is an upper bound on the radius of every
      leaf head below, and it is either 0 or attained by one of them. */
  lemma {:induction false} MaxRadius(f: Collide, nodes: seq<Node>, q: Tree, b: Box)
    ensures var r := Annotate(q, b, Preparer(f, nodes)).aux;
      && (forall d | d in Heads(q) :: Radius(f, nodes, d) <= r)
      && (q.Leaf? ==> r == Radius(f, nodes, q.data))
      && (r == 0.0 || exists d | d in Heads(q) :: Radius(f, nodes, d) == r)
    decreases q, 1
  {
    if q.Internal? {
      var P := Preparer(f, nodes);
      var ks := AnnotateKids(q, b, P, |q.kids|);
      var below := Internal(ks, q.aux);
      AnnotateKidsKeep(Axes(_ => None, _ => None), q, b, P, |q.kids|);
      assert Annotate(q, b, P).aux == KidsMax(below, |ks|);
      KidsMaxRadius(f, nodes, q, b, ks, |q.kids|);
    }
  }

  lemma {:induction false} KidsMaxRadius(f: Collide, nodes: seq<Node>, q: Tree, b: Box, ks: seq<Option<Tree>>, n: nat)
    requires q.Internal? && n <= |q.kids| && |ks| == |q.kids|
    requires forall i | 0 <= i < |q.kids| :: ks[i].Some? == q.kids[i].Some?
    requires forall i | 0 <= i < |q.kids| && q.kids[i].Some? :: ks[i].value == Annotate(q.kids[i].value, Quadrant(b, i), Preparer(f, nodes))
    ensures var r := KidsMax(Internal(ks, q.aux), n);
      && (forall d | d in KidsHeads(q, n) :: Radius(f, nodes, d) <= r)
      && (r == 0.0 || exists d | d in KidsHeads(q, n) :: Radius(f, nodes, d) == r)
    decreases q, 0, n
  {
    if n > 0 {
      KidsMaxRadius(f, nodes, q, b, ks, n - 1);
      var o := q.kids[n - 1];
      if o.Some? {
        MaxRadius(f, nodes, o.value, Quadrant(b, n - 1));
      }
    }
  }

  /** The tree an iteration builds: look-ahead positions, then prepared. */
  function RadiusTree(f: Collide, nodes: seq<Node>): (t: QuadTree<nat, real>)
    ensures t.root.Some? ==> t.extent.Some?
  {
    var t := QuadTreeOf(LookAhead(nodes), seq(|nodes|, i => i), 0.0);
    assert TreeOk(LookAhead(nodes), t);
    if t.root.None? then t
    else QuadTree(t.extent, Some(Annotate(t.root.value, t.extent.value, Preparer(f, nodes))))
  }

  // ---------------------------------------------------------------------
  // The visitor

  /** The node list being pushed and the random draws used. */
  datatype Bodies = Bodies(nodes: seq<Node>, k: nat)

  /** The share of a push that goes to the node of radius `ri` against one
      of radius `rj`: `rj^2 / (ri^2 + rj^2)`. */
  function Share(ri: real, rj: real): (w: real)
    requires ri != 0.0 || rj != 0.0
    ensures 0.0 <= w <= 1.0
    ensures Sq(ri) < Sq(rj) <==> w > 1.0 - w
    ensures Sq(ri) == Sq(rj) <==> w == 1.0 - w
    ensures w * (Sq(ri) + Sq(rj)) == Sq(rj)
  {
    var a := Sq(ri);
    var c := Sq(rj);
    assert a + c > 0.0;
    var w := c / (a + c);
    assert w * (a + c) == c;
    assert Product(1.0 - 2.0 * w, a + c) == a - c;
    assert Product(2.0 * w - 1.0, a + c) == c - a;
    assert Product(-w, a + c) == -c;
    assert Product(w - 1.0, a + c) == -a;
    w
  }

  /** The look-ahead difference after the coincidence guard: both
      components non-zero, and its length, which is positive. */
  datatype Dir = Dir(x: real, y: real, len: real, k: nat)

  function Direction(m: Maths, rnd: Random, k: nat, x: real, y: real): (g: Dir)
    ensures g.x != 0.0 && g.y != 0.0 && g.len > 0.0
    ensures x != 0.0 ==> g.x == x
    ensures y != 0.0 ==> g.y == y
    ensures g.k == k + Bit(x == 0.0) + Bit(y == 0.0)
  {
    var (x1, k1) := Unzero(rnd, k, x);
    var (y1, k2) := Unzero(rnd, k1, y);
    Dir(x1, y1, m.sqrt(Sq(x1) + Sq(y1)), k2)
  }

  /** The push factor `(r - len) / len * strength`: positive exactly when
      the disks overlap, for a positive strength. */
  function Overlap(r: real, len: real, strength: real): (s: real)
    requires len > 0.0
    ensures strength > 0.0 ==> (s > 0.0 <==> len < r)
  {
    var gap := (r - len) / len;
    assert gap > 0.0 <==> len < r;
    Product(gap, strength)
  }

  /** Pushes nodes `i` and `j` apart along `g`, the look-ahead difference
      from `j` to `i`: node `i` takes the share `Share(ri, rj)` of the push
      and node `j` the rest, in the opposite direction. So the pair's
      velocities, weighted by the squared radii, balance. */
  function Separate(f: Collide, st: Bodies, i: nat, j: nat, ri: real, rj: real, g: Dir): (r: Bodies)
    requires i < |st.nodes| && j < |st.nodes| && i != j
    requires ri != 0.0 || rj != 0.0
    requires g.len > 0.0
    ensures SamePlaces(st.nodes, r.nodes) && r.k == g.k
    ensures forall n | 0 <= n < |st.nodes| && n != i && n != j :: r.nodes[n] == st.nodes[n]
    ensures Sq(ri) * (r.nodes[i].vx - st.nodes[i].vx) + Sq(rj) * (r.nodes[j].vx - st.nodes[j].vx) == 0.0
    ensures Sq(ri) * (r.nodes[i].vy - st.nodes[i].vy) + Sq(rj) * (r.nodes[j].vy - st.nodes[j].vy) == 0.0
  {
    var scale := Overlap(ri + rj, g.len, f.strength);
    var dx := g.x * scale;
    var dy := g.y * scale;
    var w := Share(ri, rj);
    var pushed := Push(st.nodes, i, dx * w, dy * w);
    var r := Bodies(Push(pushed, j, -(dx * (1.0 - w)), -(dy * (1.0 - w))), g.k);
    Balanced(Sq(ri), Sq(rj), w, dx);
    Balanced(Sq(ri), Sq(rj), w, dy);
    r
  }

  /** `a * (d * w) + c * -(d * (1 - w)) == 0` when `w * (a + c) == c`. */
  lemma Balanced(a: real, c: real, w: real, d: real)
    requires w * (a + c) == c
    ensures a * (d * w) + c * -(d * (1.0 - w)) == 0.0
  {
    assert a * w == c * (1.0 - w);
  }

  /** The prune test: the bounds miss the look-ahead point expanded by `r`. */
  predicate Pruned(b: Box, xi: real, yi: real, r: real) {
    b.x0 > xi + r || b.x1 < xi - r || b.y0 > yi + r || b.y1 < yi - r
  }

  /** The callback of `visit` for node `i` of radius `ri` at look-ahead
      point `(xi, yi)`: a leaf whose first datum has a larger index and
      overlaps is pushed apart from the node; an internal node is skipped
      when it cannot reach the node. */
  function Apply(m: Maths, rnd: Random, f: Collide, i: nat, ri: real, xi: real, yi: real, st: Bodies, q: Tree, b: Box): (r: (Bodies, bool))
    ensures SamePlaces(st.nodes, r.0.nodes)
    ensures q.Internal? ==> r == (st, Pruned(b, xi, yi, ri + q.aux))
    ensures q.Leaf? ==> !r.1
    ensures q.Leaf? && q.data < |st.nodes| && i < |st.nodes| && st.nodes[q.data].index <= st.nodes[i].index ==> r.0 == st
  {
    var rj := q.aux;
    var r := ri + rj;
    if q.Internal? then (st, Pruned(b, xi, yi, r))
    else
      var j := q.data;
      if i < |st.nodes| && j < |st.nodes| && st.nodes[j].index > st.nodes[i].index then
        var x := xi - st.nodes[j].x - st.nodes[j].vx;
        var y := yi - st.nodes[j].y - st.nodes[j].vy;
        if Sq(x) + Sq(y) < Sq(r) then
          assert r != 0.0;
          (Separate(f, st, i, j, ri, rj, Direction(m, rnd, st.k, x, y)), false)
        else (st, false)
      else (st, false)
  }

  function Visitor(m: Maths, rnd: Random, f: Collide, i: nat, ri: real, xi: real, yi: real): QuadVisits.Visitor<nat, real, Bodies> {
    (st: Bodies, q: Tree, b: Box) => Apply(m, rnd, f, i, ri, xi, yi, st, q, b)
  }

  /** The node loop of one iteration, from node `i` on. Each node reads its
      own look-ahead point and radius when its turn comes. */
  function EachNode(m: Maths, rnd: Random, f: Collide, t: QuadTree<nat, real>, i: nat, st: Bodies): (r: Bodies)
    requires t.root.Some? ==> t.extent.Some?
    requires i <= |st.nodes|
    ensures SamePlaces(st.nodes, r.nodes)
    decreases |st.nodes| - i
  {
    if i == |st.nodes| then st
    else
      var n := st.nodes[i];
      var cb := Visitor(m, rnd, f, i, Radius(f, st.nodes, i), n.x + n.vx, n.y + n.vy);
      var inv := (s: Bodies) => SamePlaces(st.nodes, s.nodes);
      forall s', q, bb | inv(s')
        ensures inv(cb(s', q, bb).0)
      {
        SamePlacesTrans(st.nodes, s'.nodes, cb(s', q, bb).0.nodes);
      }
      VisitKeeps(t, cb, st, inv);
      var st' := Visit(t, cb, st);
      var r := EachNode(m, rnd, f, t, i + 1, st');
      SamePlacesTrans(st.nodes, st'.nodes, r.nodes);
      r
  }

  /** `force(alpha)`: `iterations` passes, each on a fresh tree. (The
      force ignores `alpha`.) */
  function Iterate(m: Maths, rnd: Random, f: Collide, st: Bodies, left: nat): (r: Bodies)
    ensures SamePlaces(st.nodes, r.nodes)
    ensures left == 0 ==> r == st
    decreases left
  {
    if left == 0 then st
    else
      var st' := EachNode(m, rnd, f, RadiusTree(f, st.nodes), 0, st);
      var r := Iterate(m, rnd, f, st', left - 1);
      SamePlacesTrans(st.nodes, st'.nodes, r.nodes);
      r
  }

  function CollideForce(m: Maths, rnd: Random, k: nat, f: Collide, nodes: seq<Node>): (r: (seq<Node>, nat))
    requires Indexed(f, nodes)
    ensures SamePlaces(nodes, r.0)
    ensures f.iterations <= 0 ==> r == (nodes, k)
  {
    var r := Iterate(m, rnd, f, Bodies(nodes, k), if f.iterations < 0 then 0 else f.iterations);
    (r.nodes, r.k)
  }

  // ---------------------------------------------------------------------
  // Properties

  /** Overlapping disks move apart: with a positive strength and non-zero
      radii, node `i` is pushed along `g` (away from `j`) and node `j`
      against it. */
  lemma SeparateApart(f: Collide, st: Bodies, i: nat, j: nat, ri: real, rj: real, g: Dir)
    requires i < |st.nodes| && j < |st.nodes| && i != j
    requires ri != 0.0 && rj != 0.0 && f.strength > 0.0
    requires 0.0 < g.len < ri + rj
    ensures var r := Separate(f, st, i, j, ri, rj, g);
      && (g.x > 0.0 <==> r.nodes[i].vx > st.nodes[i].vx)
      && (g.x > 0.0 <==> r.nodes[j].vx < st.nodes[j].vx)
  {
    var scale := Overlap(ri + rj, g.len, f.strength);
    var w := Share(ri, rj);
    assert Sq(ri) > 0.0 && Sq(rj) > 0.0;
    assert 0.0 < w < 1.0 by {
      assert Product(w, Sq(ri) + Sq(rj)) == Sq(rj);
      assert Product(1.0 - w, Sq(ri) + Sq(rj)) == Sq(ri);
    }
    var dx := Product(g.x, scale);
    assert g.x > 0.0 <==> dx > 0.0;
    assert dx * w == Product(dx, w);
    assert dx * (1.0 - w) == Product(dx, 1.0 - w);
  }

  /** A point of `b` is at least `r` away from `(xi, yi)` when `b` was
      pruned for a reach `R >= r >= 0`. */
  lemma PointApart(b: Box, xi: real, yi: real, bigR: real, r: real, px: real, py: real)
    requires 0.0 <= r <= bigR && Inside(b, px, py) && Pruned(b, xi, yi, bigR)
    ensures Sq(xi - px) + Sq(yi - py) >= Sq(r)
  {
    SquareSymmetric(xi, px);
    SquareSymmetric(yi, py);
    if b.x0 > xi + bigR {
      SquareOrder(r, px - xi);
    } else if b.x1 < xi - bigR {
      SquareOrder(r, xi - px);
    } else if b.y0 > yi + bigR {
      SquareOrder(r, py - yi);
    } else {
      SquareOrder(r, yi - py);
    }
  }

  lemma {:induction false} HeadsAreItems(q: Tree)
    ensures forall d | d in Heads(q) :: d in Items(q)
    decreases q, 1
  {
    if q.Internal? {
      KidsHeadsAreItems(q, |q.kids|);
    }
  }

  lemma {:induction false} KidsHeadsAreItems(q: Tree, n: nat)
    requires q.Internal? && n <= |q.kids|
    ensures forall d | d in KidsHeads(q, n) :: d in KidsItems(q, n)
    decreases q, 0, n
  {
    if n > 0 {
      KidsHeadsAreItems(q, n - 1);
      if q.kids[n - 1].Some? {
        HeadsAreItems(q.kids[n - 1].value);
      }
    }
  }

  /** Pruning is sound: when `visit` skips a prepared subtree, no leaf
      head below it overlaps the node, judged at the positions the tree was
      built on (radii not negative). */
  lemma PruneSound(ax: Axes<nat>, f: Collide, nodes: seq<Node>, q: Tree, b: Box, xi: real, yi: real, ri: real)
    requires Square(b) && NodeOk(ax, q, b)
    requires ri >= 0.0 && forall k | 0 <= k < |f.radii| :: f.radii[k] >= 0.0
    requires Pruned(b, xi, yi, ri + Annotate(q, b, Preparer(f, nodes)).aux)
    ensures forall d | d in Heads(q) ::
      Valid(ax, d) && Sq(xi - X(ax, d)) + Sq(yi - Y(ax, d)) >= Sq(ri + Radius(f, nodes, d))
  {
    var bigR := ri + Annotate(q, b, Preparer(f, nodes)).aux;
    MaxRadius(f, nodes, q, b);
    HeadsAreItems(q);
    ItemsInside(ax, q, b);
    forall d | d in Heads(q)
      ensures Valid(ax, d) && Sq(xi - X(ax, d)) + Sq(yi - Y(ax, d)) >= Sq(ri + Radius(f, nodes, d))
    {
      PointApart(b, xi, yi, bigR, ri + Radius(f, nodes, d), X(ax, d), Y(ax, d));
    }
  }
}
