/** ManyBodyForce: every pair of nodes attracts or repels in proportion to
    the strength of the other node over the squared distance, approximated
    with Barnes-Hut over a quadtree of the node positions.

    The tree holds node positions (indices into the node list); its
    scratch value is the aggregate charge of a quadrant and, when the
    aggregate weight is not zero, its centroid. */
module ManyBodies {
  import opened Wrappers
  import opened QuadNodes
  import opened QuadTrees
  import opened QuadVisits
  import opened ForceBase

  /** The Barnes-Hut accuracy threshold, squared. */
  const Theta2: real := 0.81

  /** The state the constructor computes: the strength of every node,
      by position, and the squared distance bounds; `None` stands for
      positive infinity. */
  datatype ManyBody = ManyBody(strengths: seq<real>, distanceMin2: real, distanceMax2: Option<real>)

  /** The scratch of a tree node: the aggregate charge `value` and the
      centroid `at`, which is `None` where the source computes 0/0. */
  datatype Mass = Mass(value: real, at: Option<(real, real)>)

  /** The scratch of a node that `accumulate` has not reached yet. */
  const Blank := Mass(0.0, None)

  type Tree = QNode<nat, Mass>

  /** `l < distanceMax2`, with `None` as positive infinity. */
  predicate Below(l: real, bound: Option<real>) {
    bound.None? || l < bound.value
  }

  /** Every node's `index` is a valid position of the strength array (the
      source throws otherwise). */
  predicate Indexed(f: ManyBody, nodes: seq<Node>) {
    forall k | 0 <= k < |nodes| :: 0 <= nodes[k].index < |f.strengths|
  }

  // ---------------------------------------------------------------------
  // Constructor

  function Strengths(nodes: seq<Node>, strength: Node -> real): (s: seq<real>)
    ensures |s| == |nodes|
    ensures forall i | 0 <= i < |nodes| :: s[i] == strength(nodes[i])
  {
    seq(|nodes|, i requires 0 <= i < |nodes| => strength(nodes[i]))
  }

  /** The constructor as written: the distance bounds are stored unsquared
      in the fields that the force compares with squared distances. */
  function NewManyBodyAsWritten(nodes: Option<seq<Node>>, strength: Node -> real, distanceMin: real, distanceMax: Option<real>): (r: Result<ManyBody, ForceError>)
    ensures nodes.None? <==> r.Err?
    ensures r.Ok? ==> r.value.distanceMin2 == distanceMin && r.value.distanceMax2 == distanceMax
    ensures r.Ok? ==> |r.value.strengths| == |nodes.value|
  {
    var n :- Attach(nodes);
    Ok(ManyBody(Strengths(n, strength), distanceMin, distanceMax))
  }

  /** The constructor with the bounds squared, as the field names and the
      comparisons in `apply` require: strengths are taken once, by position. */
  function NewManyBody(nodes: Option<seq<Node>>, strength: Node -> real, distanceMin: real, distanceMax: Option<real>): (r: Result<ManyBody, ForceError>)
    ensures nodes.None? <==> r.Err?
    ensures r.Ok? ==> |r.value.strengths| == |nodes.value|
    ensures r.Ok? ==> forall i | 0 <= i < |nodes.value| :: r.value.strengths[i] == strength(nodes.value[i])
    ensures r.Ok? ==> r.value.distanceMin2 == Sq(distanceMin)
    ensures r.Ok? ==> (distanceMax.None? <==> r.value.distanceMax2.None?)
  {
    var n :- Attach(nodes);
    Ok(ManyBody(Strengths(n, strength), Sq(distanceMin), if distanceMax.None? then None else Some(Sq(distanceMax.value))))
  }

  // ---------------------------------------------------------------------
  // Accumulation (visitAfter)

  /** `strengths[nodes[d].index]`, read for a datum `d` of the tree. */
  function Strength(f: ManyBody, nodes: seq<Node>, d: nat): real {
    if d < |nodes| && 0 <= nodes[d].index < |f.strengths| then f.strengths[nodes[d].index] else 0.0
  }

  function PosX(nodes: seq<Node>, d: nat): real {
    if d < |nodes| then nodes[d].x else 0.0
  }

  function PosY(nodes: seq<Node>, d: nat): real {
    if d < |nodes| then nodes[d].y else 0.0
  }

  /** Total strength of a list of data. */
  function Total(f: ManyBody, nodes: seq<Node>, s: seq<nat>): real
    decreases |s|
  {
    if |s| == 0 then 0.0 else Total(f, nodes, s[..|s| - 1]) + Strength(f, nodes, s[|s| - 1])
  }

  /** The running sums of the child loop of `accumulate`. */
  datatype Sums = Sums(value: real, weight: real, sx: real, sy: real)

  function CentroidOf(m: Mass): (real, real) {
    if m.at.Some? then m.at.value else (0.0, 0.0)
  }

  /** The child loop over the first `n` slots: a present child with a
      non-zero charge adds its charge, its absolute charge as weight, and
      its centroid weighted by that. The weight bounds the charge. */
  function KidsSum(q: Tree, n: nat): (r: Sums)
    requires q.Internal? && n <= |q.kids|
    ensures 0.0 <= Abs(r.value) <= r.weight
  {
    if n == 0 then Sums(0.0, 0.0, 0.0, 0.0)
    else
      var s := KidsSum(q, n - 1);
      var o := q.kids[n - 1];
      if o.Some? && o.value.aux.value != 0.0 then
        var v := o.value.aux.value;
        var c := Abs(v);
        var p := CentroidOf(o.value.aux);
        Sums(s.value + v, s.weight + c, s.sx + Product(c, p.0), s.sy + Product(c, p.1))
      else s
  }

  /** `accumulate` for one node: a leaf carries the strength of its whole
      chain at its position; an internal node carries the sum of its
      children's charges at their weighted centroid. A non-zero charge
      always has a centroid. */
  function Accumulate(f: ManyBody, nodes: seq<Node>, q: Tree): (r: Mass)
    ensures r.value != 0.0 ==> r.at.Some?
    ensures q.Leaf? ==> r.at == Some((PosX(nodes, q.data), PosY(nodes, q.data)))
  {
    match q
    case Leaf(d, _, _) => Mass(Total(f, nodes, Chain(q)), Some((PosX(nodes, d), PosY(nodes, d))))
    case Internal(kids, _) =>
      var s := KidsSum(q, |kids|);
      Mass(s.value, if s.weight == 0.0 then None else Some((s.sx / s.weight, s.sy / s.weight)))
  }

  function Accumulator(f: ManyBody, nodes: seq<Node>): (QNode<nat, Mass>, Box) -> Mass {
    (q: Tree, b: Box) => Accumulate(f, nodes, q)
  }

  /** The tree after `visitAfter(accumulate)`. */
  function Summarize(f: ManyBody, nodes: seq<Node>, t: QuadTree<nat, Mass>): (r: QuadTree<nat, Mass>)
    requires t.root.Some? ==> t.extent.Some?
    ensures r.extent == t.extent && r.root.Some? == t.root.Some?
    ensures r.root.Some? ==> r.root.value == Annotate(t.root.value, t.extent.value, Accumulator(f, nodes))
  {
    if t.root.None? then t
    else QuadTree(t.extent, Some(Annotate(t.root.value, t.extent.value, Accumulator(f, nodes))))
  }

  lemma {:induction false} TotalAppend(f: ManyBody, nodes: seq<Node>, a: seq<nat>, b: seq<nat>)
    ensures Total(f, nodes, a + b) == Total(f, nodes, a) + Total(f, nodes, b)
    decreases |b|
  {
    if |b| == 0 {
      assert a + b == a;
    } else {
      assert (a + b)[..|a + b| - 1] == a + b[..|b| - 1];
      TotalAppend(f, nodes, a, b[..|b| - 1]);
    }
  }

  /** The charge `accumulate` stores in a node is the total strength of the
      data below it. */
  lemma {:induction false} ChargeIsTotal(f: ManyBody, nodes: seq<Node>, q: Tree, b: Box)
    ensures Annotate(q, b, Accumulator(f, nodes)).aux.value == Total(f, nodes, Items(q))
    decreases q, 1
  {
    if q.Internal? {
      var F := Accumulator(f, nodes);
      var ks := AnnotateKids(q, b, F, |q.kids|);
      var below := Internal(ks, q.aux);
      AnnotateKidsKeep(Axes(_ => None, _ => None), q, b, F, |q.kids|);
      KidsCharge(f, nodes, q, b, ks, |q.kids|);
      assert Annotate(q, b, F).aux == Accumulate(f, nodes, below);
    }
  }

  /** One more slot adds its child's charge, or nothing for an empty one. */
  lemma KidsSumStep(q: Tree, n: nat)
    requires q.Internal? && 0 < n <= |q.kids|
    ensures KidsSum(q, n).value == KidsSum(q, n - 1).value + (if q.kids[n - 1].Some? then q.kids[n - 1].value.aux.value else 0.0)
  {
  }

  lemma {:induction false} KidsCharge(f: ManyBody, nodes: seq<Node>, q: Tree, b: Box, ks: seq<Option<Tree>>, n: nat)
    requires q.Internal? && n <= |q.kids| && |ks| == |q.kids|
    requires forall i | 0 <= i < |q.kids| :: ks[i].Some? == q.kids[i].Some?
    requires forall i | 0 <= i < |q.kids| && q.kids[i].Some? :: ks[i].value == Annotate(q.kids[i].value, Quadrant(b, i), Accumulator(f, nodes))
    ensures KidsSum(Internal(ks, q.aux), n).value == Total(f, nodes, KidsItems(q, n))
    decreases q, 0, n
  {
    if n > 0 {
      KidsCharge(f, nodes, q, b, ks, n - 1);
      KidsSumStep(Internal(ks, q.aux), n);
      TotalAppend(f, nodes, KidsItems(q, n - 1), SlotItems(q.kids[n - 1]));
      if q.kids[n - 1].Some? {
        ChargeIsTotal(f, nodes, q.kids[n - 1].value, Quadrant(b, n - 1));
      }
    }
  }

  /** Summing over a permutation gives the same total. */
  lemma {:induction false} TotalPermutation(f: ManyBody, nodes: seq<Node>, a: seq<nat>, b: seq<nat>)
    requires multiset(a) == multiset(b)
    ensures Total(f, nodes, a) == Total(f, nodes, b)
    decreases |a|
  {
    if |a| > 0 {
      var x := a[|a| - 1];
      assert a == a[..|a| - 1] + [x];
      assert x in multiset(b);
      var i :| 0 <= i < |b| && b[i] == x;
      var b' := b[..i] + b[i + 1..];
      assert b == b[..i] + [x] + b[i + 1..];
      assert multiset(b) == multiset(b') + multiset{x};
      assert multiset(a) == multiset(a[..|a| - 1]) + multiset{x};
      Cancel(multiset(a[..|a| - 1]), multiset(b'), multiset{x});
      TotalPermutation(f, nodes, a[..|a| - 1], b');
      TotalAppend(f, nodes, b[..i] + [x], b[i + 1..]);
      TotalAppend(f, nodes, b[..i], [x]);
      TotalAppend(f, nodes, b[..i], b[i + 1..]);
      assert Total(f, nodes, [x]) == Strength(f, nodes, x) by {
        assert [x][..0] == [];
      }
    }
  }

  // ---------------------------------------------------------------------
  // Application (visit)

  /** The velocity of the node being pushed and the random draws used. */
  datatype Acc = Acc(vx: real, vy: real, k: nat)

  /** Very close bodies: below `distanceMin2` the squared distance `l` is
      replaced by `sqrt(distanceMin2 * l)`; the result stays positive. */
  function Clamp(m: Maths, dmin2: real, l: real): (r: real)
    requires l > 0.0
    ensures r > 0.0
    ensures dmin2 <= l ==> r == l
  {
    if l < dmin2 then m.sqrt(Product(dmin2, l)) else l
  }

  /** The guarded difference: both components non-zero, the squared length
      recomputed from them, then clamped. */
  datatype Guarded = Guarded(x: real, y: real, l: real, k: nat)

  function Guard(m: Maths, rnd: Random, f: ManyBody, x: real, y: real, k: nat): (g: Guarded)
    ensures g.x != 0.0 && g.y != 0.0 && g.l > 0.0
    ensures x != 0.0 ==> g.x == x
    ensures y != 0.0 ==> g.y == y
    ensures g.k == k + Bit(x == 0.0) + Bit(y == 0.0)
  {
    var (x1, k1) := Unzero(rnd, k, x);
    var (y1, k2) := Unzero(rnd, k1, y);
    // l + jiggle^2 for each zero component: the square of the new vector.
    var l := Sq(x1) + Sq(y1);
    Guarded(x1, y1, Clamp(m, f.distanceMin2, l), k2)
  }

  /** The pull of the strength `v` along the component `x` at squared
      distance `l`. */
  function Pull(x: real, v: real, alpha: real, l: real): (r: real)
    requires l > 0.0
    ensures alpha > 0.0 && x != 0.0 && v != 0.0 ==> (r > 0.0 <==> (x > 0.0 <==> v > 0.0))
    ensures v == 0.0 || alpha == 0.0 ==> r == 0.0
  {
    var s := Product(v, alpha);
    assert alpha > 0.0 ==> (s > 0.0 <==> v > 0.0) && (v != 0.0 ==> s != 0.0);
    Product(x, s) / l
  }

  /** The do-while over a leaf's chain: every datum other than the node
      itself pulls by its own strength. */
  function ChainPull(f: ManyBody, nodes: seq<Node>, chain: seq<nat>, p: nat, alpha: real, g: Guarded, s: Acc): (r: Acc)
    requires g.l > 0.0
    ensures r.k == s.k
    ensures (forall i | 0 <= i < |chain| :: chain[i] == p) ==> r == s
    decreases |chain|
  {
    if |chain| == 0 then s
    else
      var d := chain[0];
      var s' := if d != p then
        var v := Strength(f, nodes, d);
        Acc(s.vx + Pull(g.x, v, alpha, g.l), s.vy + Pull(g.y, v, alpha, g.l), s.k)
      else s;
      ChainPull(f, nodes, chain[1..], p, alpha, g, s')
  }

  /** `apply(node, alpha, quad, ...)` for the node at position `p`, at
      `(px, py)`. The boolean tells the traversal to skip the children. */
  function Apply(m: Maths, rnd: Random, f: ManyBody, nodes: seq<Node>, p: nat, px: real, py: real, alpha: real, s: Acc, q: Tree, b: Box): (r: (Acc, bool))
    ensures q.aux.value == 0.0 ==> r == (s, true)
    ensures q.aux.at.Some? && !Below(Sq(q.aux.at.value.0 - px) + Sq(q.aux.at.value.1 - py), f.distanceMax2) ==> r.0 == s
    ensures q.Internal? && !r.1 ==> r.0 == s
  {
    if q.aux.value == 0.0 || q.aux.at.None? then (s, true)
    else
      var x := q.aux.at.value.0 - px;
      var y := q.aux.at.value.1 - py;
      var l := Sq(x) + Sq(y);
      if Sq(Width(b)) / Theta2 < l then
        // Far enough: the quadrant acts as one body.
        if Below(l, f.distanceMax2) then
          var g := Guard(m, rnd, f, x, y, s.k);
          (Acc(s.vx + Pull(g.x, q.aux.value, alpha, g.l), s.vy + Pull(g.y, q.aux.value, alpha, g.l), g.k), true)
        else (s, true)
      else if q.Internal? || !Below(l, f.distanceMax2) then (s, false)
      else if q.data == p && |q.next| == 0 then (s, false)
      else
        var g := Guard(m, rnd, f, x, y, s.k);
        (ChainPull(f, nodes, Chain(q), p, alpha, g, Acc(s.vx, s.vy, g.k)), false)
  }

  /** The tree's coordinate accessors over node positions. */
  function Positions(nodes: seq<Node>): Axes<nat> {
    Axes((d: nat) => if d < |nodes| then Some(nodes[d].x) else None, (d: nat) => if d < |nodes| then Some(nodes[d].y) else None)
  }

  function Range(n: nat): (s: seq<nat>)
    ensures |s| == n && forall i | 0 <= i < n :: s[i] == i
  {
    seq(n, i => i)
  }

  /** The tree `force` builds: all node positions, then accumulated. */
  function ChargeTree(f: ManyBody, nodes: seq<Node>): (t: QuadTree<nat, Mass>)
    ensures t.root.Some? ==> t.extent.Some?
    ensures |nodes| == 0 <==> t.root.None?
  {
    var t := QuadTreeOf(Positions(nodes), Range(|nodes|), Blank);
    assert TreeOk(Positions(nodes), t);
    assert |nodes| > 0 ==> t.root.Some? by {
      if |nodes| > 0 {
        assert 0 in multiset(Range(|nodes|));
        assert TreeItems(t) != [];
      }
    }
    Summarize(f, nodes, t)
  }

  /** The visit for one node, starting from its current velocity. */
  function Visitor(m: Maths, rnd: Random, f: ManyBody, nodes: seq<Node>, p: nat, px: real, py: real, alpha: real): QuadVisits.Visitor<nat, Mass, Acc> {
    (s: Acc, q: Tree, b: Box) => Apply(m, rnd, f, nodes, p, px, py, alpha, s, q, b)
  }

  /** The loop over the nodes from position `p` on; positions do not move
      during the pass, so every visit reads the same tree. */
  function ApplyFrom(m: Maths, rnd: Random, f: ManyBody, nodes: seq<Node>, t: QuadTree<nat, Mass>, alpha: real, p: nat, k: nat, cur: seq<Node>): (r: (seq<Node>, nat))
    requires t.root.Some? ==> t.extent.Some?
    requires p <= |cur| && SamePlaces(nodes, cur)
    requires forall j | p <= j < |cur| :: cur[j] == nodes[j]
    ensures SamePlaces(nodes, r.0)
    ensures forall j | 0 <= j < p :: r.0[j] == cur[j]
    decreases |cur| - p
  {
    if p == |cur| then (cur, k)
    else
      var n := cur[p];
      var s := Visit(t, Visitor(m, rnd, f, nodes, p, n.x, n.y, alpha), Acc(n.vx, n.vy, k));
      ApplyFrom(m, rnd, f, nodes, t, alpha, p + 1, s.k, cur[p := n.(vx := s.vx, vy := s.vy)])
  }

  /** `force(alpha)`: build and accumulate the tree, then visit it once for
      every node in list order. */
  function ManyBodyForce(m: Maths, rnd: Random, k: nat, f: ManyBody, nodes: seq<Node>, alpha: real): (r: (seq<Node>, nat))
    requires Indexed(f, nodes)
    ensures SamePlaces(nodes, r.0)
  {
    ApplyFrom(m, rnd, f, nodes, ChargeTree(f, nodes), alpha, 0, k, nodes)
  }

  // ---------------------------------------------------------------------
  // Properties of the accumulated tree

  /** The root of the tree `force` builds carries the total strength of
      all nodes. */
  lemma RootChargeIsTotal(f: ManyBody, nodes: seq<Node>)
    requires |nodes| > 0
    ensures var t := ChargeTree(f, nodes);
      t.root.Some? && t.root.value.aux.value == Total(f, nodes, Range(|nodes|))
  {
    var t := QuadTreeOf(Positions(nodes), Range(|nodes|), Blank);
    assert multiset(TreeItems(t)) == multiset(Range(|nodes|));
    ChargeIsTotal(f, nodes, t.root.value, t.extent.value);
    TotalPermutation(f, nodes, TreeItems(t), Range(|nodes|));
  }

  /** `lo * w <= s < hi * w` with `w > 0` bounds the quotient. */
  lemma DivBounds(s: real, w: real, lo: real, hi: real)
    requires w > 0.0 && WeightedIn(lo, hi, w, s)
    ensures lo <= s / w < hi
  {
    assert lo * w <= s < hi * w;
  }

  /** `c * lo <= c * v < c * hi` for a positive weight `c`. */
  lemma ScaleBounds(c: real, v: real, lo: real, hi: real)
    requires c > 0.0 && lo <= v < hi
    ensures Product(c, lo) <= Product(c, v) < Product(c, hi)
  {
    assert Product(c, v - lo) >= 0.0;
    assert Product(c, hi - v) > 0.0;
  }

  /** A weighted sum `sx` of points of [lo, hi) with total weight `w`. */
  predicate WeightedIn(lo: real, hi: real, w: real, sx: real) {
    Product(lo, w) <= sx <= Product(hi, w) && (w > 0.0 ==> sx < Product(hi, w))
  }

  /** Adding a point of [lo, hi) with weight `c` keeps a weighted sum
      between the weighted bounds. */
  lemma StepBounds(w: real, sx: real, c: real, p: real, lo: real, hi: real)
    requires w >= 0.0 && c > 0.0 && lo <= p < hi
    requires WeightedIn(lo, hi, w, sx)
    ensures WeightedIn(lo, hi, w + c, sx + Product(c, p))
  {
    ScaleBounds(c, p, lo, hi);
    var w' := w + c;
    assert Product(lo, w') == Product(lo, w) + Product(c, lo);
    assert Product(hi, w') == Product(hi, w) + Product(c, hi);
  }

  /** The weighted sums of children whose centroids lie in `b` stay
      between the weighted bounds of `b`. */
  lemma {:induction false} KidsCentroid(r: Tree, b: Box, n: nat)
    requires r.Internal? && n <= |r.kids|
    requires forall i | 0 <= i < |r.kids| && r.kids[i].Some? && r.kids[i].value.aux.value != 0.0 ::
      Inside(b, CentroidOf(r.kids[i].value.aux).0, CentroidOf(r.kids[i].value.aux).1)
    ensures WeightedIn(b.x0, b.x1, KidsSum(r, n).weight, KidsSum(r, n).sx)
    ensures WeightedIn(b.y0, b.y1, KidsSum(r, n).weight, KidsSum(r, n).sy)
  {
    if n > 0 {
      KidsCentroid(r, b, n - 1);
      var o := r.kids[n - 1];
      var s := KidsSum(r, n - 1);
      if o.Some? && o.value.aux.value != 0.0 {
        var v := o.value.aux.value;
        var c := Abs(v);
        var p := CentroidOf(o.value.aux);
        assert c > 0.0;
        assert Inside(b, p.0, p.1);
        StepBounds(s.weight, s.sx, c, p.0, b.x0, b.x1);
        StepBounds(s.weight, s.sy, c, p.1, b.y0, b.y1);
        assert KidsSum(r, n) == Sums(s.value + v, s.weight + c, s.sx + Product(c, p.0), s.sy + Product(c, p.1));
      } else {
        assert KidsSum(r, n) == s;
      }
    }
  }

  /** A node whose stored charge is not zero has a centroid. */
  lemma ChargedHasCentroid(f: ManyBody, nodes: seq<Node>, q: Tree, b: Box)
    ensures var a := Annotate(q, b, Accumulator(f, nodes)).aux;
      a.value != 0.0 ==> a.at.Some?
  {
    var a := Annotate(q, b, Accumulator(f, nodes)).aux;
    if q.Internal? {
      assert a == Accumulate(f, nodes, Internal(AnnotateKids(q, b, Accumulator(f, nodes), |q.kids|), q.aux));
    } else {
      assert a == Accumulate(f, nodes, q);
    }
  }

  lemma {:induction false} KidCentroidInside(f: ManyBody, nodes: seq<Node>, k: Tree, b: Box, i: nat)
    requires Square(b) && i < 4 && NodeOk(Positions(nodes), k, Quadrant(b, i))
    ensures var a := Annotate(k, Quadrant(b, i), Accumulator(f, nodes)).aux;
      a.value != 0.0 ==> Inside(b, CentroidOf(a).0, CentroidOf(a).1)
    decreases k, 2
  {
    QuadrantShape(b, i);
    CentroidInside(f, nodes, k, Quadrant(b, i));
    ChargedHasCentroid(f, nodes, k, Quadrant(b, i));
  }

  /** The centroid `accumulate` stores lies inside the node's bounds. */
  lemma {:induction false} CentroidInside(f: ManyBody, nodes: seq<Node>, q: Tree, b: Box)
    requires Square(b) && NodeOk(Positions(nodes), q, b)
    ensures var a := Annotate(q, b, Accumulator(f, nodes)).aux;
      a.at.Some? ==> Inside(b, a.at.value.0, a.at.value.1)
    decreases q, 1
  {
    var F := Accumulator(f, nodes);
    if q.Internal? {
      var ax := Positions(nodes);
      var ks := AnnotateKids(q, b, F, |q.kids|);
      var below := Internal(ks, q.aux);
      AnnotateKidsKeep(ax, q, b, F, |q.kids|);
      forall i | 0 <= i < |ks| && ks[i].Some? && ks[i].value.aux.value != 0.0
        ensures Inside(b, CentroidOf(ks[i].value.aux).0, CentroidOf(ks[i].value.aux).1)
      {
        KidCentroidInside(f, nodes, q.kids[i].value, b, i);
      }
      KidsCentroid(below, b, |ks|);
      var s := KidsSum(below, |ks|);
      assert Annotate(q, b, F).aux == Accumulate(f, nodes, below);
      if s.weight != 0.0 {
        DivBounds(s.sx, s.weight, b.x0, b.x1);
        DivBounds(s.sy, s.weight, b.y0, b.y1);
      }
    }
  }

  // ---------------------------------------------------------------------
  // Properties of one application

  /** A node alone in its leaf, at the leaf's position, feels nothing from
      it and draws no random numbers. */
  lemma AloneInLeaf(m: Maths, rnd: Random, f: ManyBody, nodes: seq<Node>, p: nat, px: real, py: real, alpha: real, s: Acc, b: Box, a: Mass)
    requires a.at == Some((px, py))
    ensures Apply(m, rnd, f, nodes, p, px, py, alpha, s, Leaf(p, [], a), b).0 == s
  {
    assert Sq(0.0) == 0.0;
    assert Sq(Width(b)) / Theta2 >= 0.0;
  }

  /** With repulsive strengths a chain pushes the node away along `g.x`. */
  lemma {:induction false} ChainRepels(f: ManyBody, nodes: seq<Node>, chain: seq<nat>, p: nat, alpha: real, g: Guarded, s: Acc)
    requires g.l > 0.0 && g.x != 0.0 && alpha > 0.0
    requires forall i | 0 <= i < |f.strengths| :: f.strengths[i] <= 0.0
    ensures var r := ChainPull(f, nodes, chain, p, alpha, g, s);
      (g.x > 0.0 ==> r.vx <= s.vx) && (g.x < 0.0 ==> r.vx >= s.vx)
    decreases |chain|
  {
    if |chain| > 0 {
      var d := chain[0];
      var s' := if d != p then
        var v := Strength(f, nodes, d);
        Acc(s.vx + Pull(g.x, v, alpha, g.l), s.vy + Pull(g.y, v, alpha, g.l), s.k)
      else s;
      ChainRepels(f, nodes, chain[1..], p, alpha, g, s');
    }
  }

  /** Repulsion: when every strength and the quadrant's charge are not
      positive, the node's horizontal velocity changes away from the
      quadrant's centroid (or not at all). */
  lemma Repels(m: Maths, rnd: Random, f: ManyBody, nodes: seq<Node>, p: nat, px: real, py: real, alpha: real, s: Acc, q: Tree, b: Box)
    requires alpha > 0.0 && q.aux.value <= 0.0
    requires forall i | 0 <= i < |f.strengths| :: f.strengths[i] <= 0.0
    requires q.aux.at.Some? && q.aux.at.value.0 != px
    ensures var r := Apply(m, rnd, f, nodes, p, px, py, alpha, s, q, b).0;
      (q.aux.at.value.0 > px ==> r.vx <= s.vx) && (q.aux.at.value.0 < px ==> r.vx >= s.vx)
  {
    var x := q.aux.at.value.0 - px;
    var y := q.aux.at.value.1 - py;
    if Sq(Width(b)) / Theta2 < Sq(x) + Sq(y) {
      FarRepels(m, rnd, f, nodes, p, px, py, alpha, s, q, b);
    } else {
      NearRepels(m, rnd, f, nodes, p, px, py, alpha, s, q, b);
    }
  }

  lemma FarRepels(m: Maths, rnd: Random, f: ManyBody, nodes: seq<Node>, p: nat, px: real, py: real, alpha: real, s: Acc, q: Tree, b: Box)
    requires alpha > 0.0 && q.aux.value <= 0.0
    requires q.aux.at.Some? && q.aux.at.value.0 != px
    requires var x, y := q.aux.at.value.0 - px, q.aux.at.value.1 - py;
      Sq(Width(b)) / Theta2 < Sq(x) + Sq(y)
    ensures var r := Apply(m, rnd, f, nodes, p, px, py, alpha, s, q, b).0;
      (q.aux.at.value.0 > px ==> r.vx <= s.vx) && (q.aux.at.value.0 < px ==> r.vx >= s.vx)
  {
    var x := q.aux.at.value.0 - px;
    var y := q.aux.at.value.1 - py;
    FarValue(m, rnd, f, nodes, p, px, py, alpha, s, q, b);
    FarSign(f, alpha, s, q.aux.value, x, Guard(m, rnd, f, x, y, s.k), Sq(x) + Sq(y),
      Apply(m, rnd, f, nodes, p, px, py, alpha, s, q, b).0);
  }

  /** Far from a quadrant, a charged one within range moves the node as one
      body; otherwise nothing changes. */
  lemma FarValue(m: Maths, rnd: Random, f: ManyBody, nodes: seq<Node>, p: nat, px: real, py: real, alpha: real, s: Acc, q: Tree, b: Box)
    requires q.aux.at.Some?
    requires var x, y := q.aux.at.value.0 - px, q.aux.at.value.1 - py;
      Sq(Width(b)) / Theta2 < Sq(x) + Sq(y)
    ensures var x, y := q.aux.at.value.0 - px, q.aux.at.value.1 - py;
      var r := Apply(m, rnd, f, nodes, p, px, py, alpha, s, q, b).0;
      if q.aux.value != 0.0 && Below(Sq(x) + Sq(y), f.distanceMax2)
      then var g := Guard(m, rnd, f, x, y, s.k);
        r.vx == s.vx + Pull(g.x, q.aux.value, alpha, g.l)
      else r == s
  {
  }

  lemma FarSign(f: ManyBody, alpha: real, s: Acc, v: real, x: real, g: Guarded, l: real, r: Acc)
    requires alpha > 0.0 && v <= 0.0 && x != 0.0
    requires g.l > 0.0 && g.x == x
    requires if v != 0.0 && Below(l, f.distanceMax2) then r.vx == s.vx + Pull(g.x, v, alpha, g.l) else r == s
    ensures (x > 0.0 ==> r.vx <= s.vx) && (x < 0.0 ==> r.vx >= s.vx)
  {
    if v != 0.0 {
      PullAway(g.x, v, alpha, g.l);
    }
  }

  lemma NearRepels(m: Maths, rnd: Random, f: ManyBody, nodes: seq<Node>, p: nat, px: real, py: real, alpha: real, s: Acc, q: Tree, b: Box)
    requires alpha > 0.0
    requires forall i | 0 <= i < |f.strengths| :: f.strengths[i] <= 0.0
    requires q.aux.at.Some? && q.aux.at.value.0 != px
    requires var x, y := q.aux.at.value.0 - px, q.aux.at.value.1 - py;
      !(Sq(Width(b)) / Theta2 < Sq(x) + Sq(y))
    ensures var r := Apply(m, rnd, f, nodes, p, px, py, alpha, s, q, b).0;
      (q.aux.at.value.0 > px ==> r.vx <= s.vx) && (q.aux.at.value.0 < px ==> r.vx >= s.vx)
  {
    NearValue(m, rnd, f, nodes, p, px, py, alpha, s, q, b);
    if q.Leaf? {
      var x, y := q.aux.at.value.0 - px, q.aux.at.value.1 - py;
      NearLeafRepels(m, rnd, f, nodes, p, px, py, alpha, s, q, Guard(m, rnd, f, x, y, s.k),
        q.aux.value != 0.0 && q.Leaf? && Below(Sq(x) + Sq(y), f.distanceMax2) && !(q.data == p && |q.next| == 0),
        Apply(m, rnd, f, nodes, p, px, py, alpha, s, q, b).0);
    }
  }

  /** The near case at a leaf, for the guarded difference `g` and the
      step `r` that `NearValue` describes. */
  lemma NearLeafRepels(m: Maths, rnd: Random, f: ManyBody, nodes: seq<Node>, p: nat, px: real, py: real, alpha: real, s: Acc, q: Tree, g: Guarded, pulls: bool, r: Acc)
    requires alpha > 0.0 && q.Leaf?
    requires forall i | 0 <= i < |f.strengths| :: f.strengths[i] <= 0.0
    requires q.aux.at.Some? && q.aux.at.value.0 != px
    requires g == Guard(m, rnd, f, q.aux.at.value.0 - px, q.aux.at.value.1 - py, s.k)
    requires if pulls then r == ChainPull(f, nodes, Chain(q), p, alpha, g, Acc(s.vx, s.vy, g.k)) else r == s
    ensures (q.aux.at.value.0 > px ==> r.vx <= s.vx) && (q.aux.at.value.0 < px ==> r.vx >= s.vx)
  {
    NearSign(f, nodes, p, alpha, s, Chain(q), q.aux.at.value.0 - px, g, pulls, r);
  }

  lemma NearSign(f: ManyBody, nodes: seq<Node>, p: nat, alpha: real, s: Acc, chain: seq<nat>, x: real, g: Guarded, pulls: bool, r: Acc)
    requires alpha > 0.0 && x != 0.0
    requires forall i | 0 <= i < |f.strengths| :: f.strengths[i] <= 0.0
    requires g.l > 0.0 && g.x == x
    requires if pulls then r == ChainPull(f, nodes, chain, p, alpha, g, Acc(s.vx, s.vy, g.k)) else r == s
    ensures (x > 0.0 ==> r.vx <= s.vx) && (x < 0.0 ==> r.vx >= s.vx)
  {
    if pulls {
      ChainRepels(f, nodes, chain, p, alpha, g, Acc(s.vx, s.vy, g.k));
    }
  }

  /** Near a quadrant only a leaf within range other than the node alone
      moves the node, through its chain. */
  lemma NearValue(m: Maths, rnd: Random, f: ManyBody, nodes: seq<Node>, p: nat, px: real, py: real, alpha: real, s: Acc, q: Tree, b: Box)
    requires q.aux.at.Some?
    requires var x, y := q.aux.at.value.0 - px, q.aux.at.value.1 - py;
      !(Sq(Width(b)) / Theta2 < Sq(x) + Sq(y))
    ensures var x, y := q.aux.at.value.0 - px, q.aux.at.value.1 - py;
      var r := Apply(m, rnd, f, nodes, p, px, py, alpha, s, q, b).0;
      if q.aux.value != 0.0 && q.Leaf? && Below(Sq(x) + Sq(y), f.distanceMax2) && !(q.data == p && |q.next| == 0)
      then var g := Guard(m, rnd, f, x, y, s.k);
        r == ChainPull(f, nodes, Chain(q), p, alpha, g, Acc(s.vx, s.vy, g.k))
      else r == s
  {
  }

  /** A strength that is not positive pulls against the direction `x`. */
  lemma PullAway(x: real, v: real, alpha: real, l: real)
    requires l > 0.0 && alpha > 0.0 && v <= 0.0 && x != 0.0
    ensures x > 0.0 ==> Pull(x, v, alpha, l) <= 0.0
    ensures x < 0.0 ==> Pull(x, v, alpha, l) >= 0.0
  {
  }

  // ---------------------------------------------------------------------
  // The unsquared distance bounds

  /** With the bounds squared, a body interacts exactly when it is nearer
      than `distanceMax`. */
  lemma DistanceMaxSquared(nodes: seq<Node>, strength: Node -> real, distanceMin: real, distanceMax: Option<real>, d: real)
    requires distanceMax.Some? ==> distanceMax.value >= 0.0
    requires d >= 0.0
    ensures Below(Sq(d), NewManyBody(Some(nodes), strength, distanceMin, distanceMax).value.distanceMax2)
      <==> distanceMax.None? || d < distanceMax.value
  {
    if distanceMax.Some? {
      SquareOrder(d, distanceMax.value);
    }
  }

  /** Two nodes 50 apart with `distanceMax` 100: as written the far node
      is ignored (2500 is not below 100); with the bounds squared it
      pushes. */
  lemma UnsquaredDistanceMax(m: Maths, rnd: Random, strength: Node -> real, alpha: real, s: Acc)
    requires alpha > 0.0
    ensures var nodes := [Node(0, 0.0, 0.0, 0.0, 0.0, None, None), Node(1, 50.0, 0.0, 0.0, 0.0, None, None)];
      var q := Leaf(1, [], Mass(-30.0, Some((50.0, 0.0))));
      var b := Box(50.0, 0.0, 51.0, 1.0);
      var written := NewManyBodyAsWritten(Some(nodes), strength, 1.0, Some(100.0)).value;
      var squared := NewManyBody(Some(nodes), strength, 1.0, Some(100.0)).value;
      && Apply(m, rnd, written, nodes, 0, 0.0, 0.0, alpha, s, q, b).0 == s
      && Apply(m, rnd, squared, nodes, 0, 0.0, 0.0, alpha, s, q, b).0.vx < s.vx
  {
    var nodes := [Node(0, 0.0, 0.0, 0.0, 0.0, None, None), Node(1, 50.0, 0.0, 0.0, 0.0, None, None)];
    var squared := NewManyBody(Some(nodes), strength, 1.0, Some(100.0)).value;
    assert Sq(50.0) == 2500.0 && Sq(0.0) == 0.0 && Sq(1.0) == 1.0 && Sq(100.0) == 10000.0;
    assert Sq(Width(Box(50.0, 0.0, 51.0, 1.0))) / Theta2 < 2500.0;
    var g := Guard(m, rnd, squared, 50.0, 0.0, s.k);
    assert Pull(g.x, -30.0, alpha, g.l) < 0.0;
  }
}
