/** The point quadtree of QuadTree.java: a square extent that grows by
    doubling, insertion by descent with chaining of coincident points and
    splitting of leaves, and the pre-order `visit` and post-order
    `visitAfter` traversals.

    Coordinates are mathematical reals. The coordinate accessors return
    `None` where the source's accessors return NaN. */
module QuadTrees {
  import opened Wrappers
  import opened QuadNodes

  /** The region [x0, x1) x [y0, y1). */
  datatype Box = Box(x0: real, y0: real, x1: real, y1: real)

  /** The tree's coordinate accessors (`_x`, `_y`); `None` stands for NaN. */
  datatype Axes<!E> = Axes(x: E -> Option<real>, y: E -> Option<real>)

  /** `extent` is `None` while the source's bounds are still NaN; `root` is
      `None` for an empty tree. */
  datatype QuadTree<E, A> = QuadTree(extent: Option<Box>, root: Option<QNode<E, A>>)

  /** A node together with the bounds a traversal computes for it. */
  datatype Quad<E, A> = Quad(node: QNode<E, A>, box: Box)

  /** The tree the `quadTree` factory starts from: NaN bounds, no root. */
  function Empty<E, A>(): QuadTree<E, A> {
    QuadTree(None, None)
  }

  predicate Inside(b: Box, x: real, y: real) {
    b.x0 <= x < b.x1 && b.y0 <= y < b.y1
  }

  predicate Square(b: Box) {
    b.x0 < b.x1 && b.x1 - b.x0 == b.y1 - b.y0
  }

  predicate Contains(outer: Box, inner: Box) {
    outer.x0 <= inner.x0 && inner.x1 <= outer.x1 && outer.y0 <= inner.y0 && inner.y1 <= outer.y1
  }

  function Width(b: Box): real {
    b.x1 - b.x0
  }

  function Bit(c: bool): nat {
    if c then 1 else 0
  }

  function Max(a: real, b: real): real {
    if a < b then b else a
  }

  function Abs(a: real): real {
    if a < 0.0 then -a else a
  }

  /** The slot `(bottom << 1) | right` that a point of `b` descends into. */
  function ChildIndex(b: Box, x: real, y: real): (i: nat)
    ensures i < 4
  {
    var xm := (b.x0 + b.x1) / 2.0;
    var ym := (b.y0 + b.y1) / 2.0;
    2 * Bit(y >= ym) + Bit(x >= xm)
  }

  /** Bounds of slot `i` of a node with bounds `b`, as both traversals
      compute them: bit 0 selects the right half, bit 1 the bottom half. */
  function Quadrant(b: Box, i: nat): Box {
    var xm := (b.x0 + b.x1) / 2.0;
    var ym := (b.y0 + b.y1) / 2.0;
    var right := i % 2 == 1;
    var bottom := i / 2 % 2 == 1;
    Box(if right then xm else b.x0, if bottom then ym else b.y0,
        if right then b.x1 else xm, if bottom then b.y1 else ym)
  }

  lemma QuadrantShape(b: Box, i: nat)
    requires Square(b) && i < 4
    ensures Square(Quadrant(b, i)) && Contains(b, Quadrant(b, i))
    ensures Width(Quadrant(b, i)) == Width(b) / 2.0
  {
  }

  /** A point of `b` lies in the quadrant its child index names, and in no
      other quadrant. */
  lemma QuadrantOf(b: Box, x: real, y: real)
    requires Square(b) && Inside(b, x, y)
    ensures Inside(Quadrant(b, ChildIndex(b, x, y)), x, y)
    ensures forall i | 0 <= i < 4 && Inside(Quadrant(b, i), x, y) :: i == ChildIndex(b, x, y)
  {
  }

  predicate Valid<E>(ax: Axes<E>, d: E) {
    ax.x(d).Some? && ax.y(d).Some?
  }

  function X<E>(ax: Axes<E>, d: E): real
    requires Valid(ax, d)
  {
    ax.x(d).value
  }

  function Y<E>(ax: Axes<E>, d: E): real
    requires Valid(ax, d)
  {
    ax.y(d).value
  }

  // ---------------------------------------------------------------------
  // Invariant and contents

  /** The structural invariant: a leaf's datum lies in the leaf's bounds and
      its whole chain shares the datum's coordinates; an internal node has
      four slots, each subtree lying in the matching quadrant. */
  ghost predicate NodeOk<E, A>(ax: Axes<E>, q: QNode<E, A>, b: Box)
    decreases q
  {
    match q
    case Leaf(d, next, _) =>
      && Valid(ax, d) && Inside(b, X(ax, d), Y(ax, d))
      && forall k | 0 <= k < |next| ::
           Valid(ax, next[k]) && X(ax, next[k]) == X(ax, d) && Y(ax, next[k]) == Y(ax, d)
    case Internal(kids, _) =>
      && |kids| == 4
      && forall i | 0 <= i < 4 :: kids[i].Some? ==> NodeOk(ax, kids[i].value, Quadrant(b, i))
  }

  ghost predicate TreeOk<E, A>(ax: Axes<E>, t: QuadTree<E, A>) {
    && (t.extent.Some? ==> Square(t.extent.value))
    && (t.root.Some? ==> t.extent.Some? && NodeOk(ax, t.root.value, t.extent.value))
  }

  /** Every element reachable from `q`: leaf chains in slot order. */
  function Items<E, A>(q: QNode<E, A>): seq<E>
    decreases q, 1
  {
    match q
    case Leaf(_, _, _) => Chain(q)
    case Internal(kids, _) => KidsItems(q, |kids|)
  }

  function KidsItems<E, A>(q: QNode<E, A>, n: nat): seq<E>
    requires q.Internal? && n <= |q.kids|
    decreases q, 0, n
  {
    if n == 0 then [] else KidsItems(q, n - 1) + SlotItems(q.kids[n - 1])
  }

  function SlotItems<E, A>(o: Option<QNode<E, A>>): seq<E>
    decreases o, 2
  {
    if o.Some? then Items(o.value) else []
  }

  function TreeItems<E, A>(t: QuadTree<E, A>): seq<E> {
    SlotItems(t.root)
  }

  lemma {:induction false} KidsItemsPrefix<E, A>(q: QNode<E, A>, i: nat, c: Option<QNode<E, A>>, n: nat)
    requires q.Internal? && n <= i < |q.kids|
    ensures KidsItems(Set(q, i, c), n) == KidsItems(q, n)
  {
    if n > 0 {
      KidsItemsPrefix(q, i, c, n - 1);
    }
  }

  /** Replacing slot `i` swaps that slot's elements and keeps all others. */
  lemma {:induction false} KidsItemsSet<E, A>(q: QNode<E, A>, i: nat, c: Option<QNode<E, A>>, n: nat)
    requires q.Internal? && i < n <= |q.kids|
    ensures multiset(KidsItems(Set(q, i, c), n)) + multiset(SlotItems(q.kids[i]))
         == multiset(KidsItems(q, n)) + multiset(SlotItems(c))
  {
    var r := Set(q, i, c);
    var m := n - 1;
    var a, a' := KidsItems(q, m), KidsItems(r, m);
    var s, s' := SlotItems(q.kids[m]), SlotItems(r.kids[m]);
    assert KidsItems(r, n) == a' + s';
    assert KidsItems(q, n) == a + s;
    var gone, added := multiset(SlotItems(q.kids[i])), multiset(SlotItems(c));
    if m == i {
      KidsItemsPrefix(q, i, c, i);
      assert a' == a && s' == SlotItems(c);
      calc {
        multiset(a' + s') + gone;
        multiset(a) + added + gone;
        multiset(a + s) + added;
      }
    } else {
      KidsItemsSet(q, i, c, m);
      assert r.kids[m] == q.kids[m];
      assert multiset(a') + gone == multiset(a) + added;
      calc {
        multiset(a' + s') + gone;
        multiset(a') + gone + multiset(s);
        multiset(a) + added + multiset(s);
        multiset(a + s) + added;
      }
    }
  }

  /** Every element of `s` is a valid point of `b`. */
  ghost predicate AllIn<E>(ax: Axes<E>, s: seq<E>, b: Box) {
    forall e | e in s :: Valid(ax, e) && Inside(b, X(ax, e), Y(ax, e))
  }

  /** Every element of a well-formed subtree is a valid point of its bounds. */
  lemma {:induction false} ItemsInside<E, A>(ax: Axes<E>, q: QNode<E, A>, b: Box)
    requires NodeOk(ax, q, b) && Square(b)
    ensures AllIn(ax, Items(q), b)
    decreases q, 1
  {
    match q
    case Leaf(d, next, _) =>
      assert Items(q) == [d] + next;
      forall e | e in next
        ensures Valid(ax, e) && Inside(b, X(ax, e), Y(ax, e))
      {
        var k :| 0 <= k < |next| && next[k] == e;
      }
    case Internal(kids, _) =>
      KidsItemsInside(ax, q, b, 4);
  }

  lemma {:induction false} KidsItemsInside<E, A>(ax: Axes<E>, q: QNode<E, A>, b: Box, n: nat)
    requires q.Internal? && NodeOk(ax, q, b) && Square(b) && n <= 4
    ensures AllIn(ax, KidsItems(q, n), b)
    decreases q, 0, n
  {
    if n > 0 {
      KidsItemsInside(ax, q, b, n - 1);
      var o := q.kids[n - 1];
      if o.Some? {
        QuadrantShape(b, n - 1);
        ItemsInside(ax, o.value, Quadrant(b, n - 1));
      }
    }
  }

  /** The extent invariant: every element of a well-formed tree is a valid
      point inside the tree's extent. */
  lemma TreeItemsInside<E, A>(ax: Axes<E>, t: QuadTree<E, A>)
    requires TreeOk(ax, t) && t.root.Some?
    ensures t.extent.Some? && AllIn(ax, TreeItems(t), t.extent.value)
  {
    ItemsInside(ax, t.root.value, t.extent.value);
  }

  lemma LeafWidens<E, A>(ax: Axes<E>, q: QNode<E, A>, b: Box, b': Box)
    requires q.Leaf? && NodeOk(ax, q, b) && Contains(b', b)
    ensures NodeOk(ax, q, b')
  {
  }

  // ---------------------------------------------------------------------
  // cover

  /** Distance from the bound that a growth step keeps fixed. */
  function Reach(lo: real, hi: real, v: real): real {
    if v < lo then hi - v else v - lo
  }

  function GrowSteps(b: Box, x: real, y: real): nat
    requires Square(b)
  {
    var r := Max(Reach(b.x0, b.x1, x), Reach(b.y0, b.y1, y)) / Width(b);
    if r < 0.0 then 0 else r.Floor
  }

  /** The bounds after one doubling to side `z` towards slot `i` (the
      `switch` of `cover`). */
  function GrowBox(b: Box, i: nat, z: real): Box {
    if i == 0 then Box(b.x0, b.y0, b.x0 + z, b.y0 + z)
    else if i == 1 then Box(b.x1 - z, b.y0, b.x1, b.y0 + z)
    else if i == 2 then Box(b.x0, b.y1 - z, b.x0 + z, b.y1)
    else Box(b.x1 - z, b.y1 - z, b.x1, b.y1)
  }

  /** The slot the old square takes in the doubled square when growing
      towards a point outside `b`: `(y < y0) << 1 | (x < x0)`. */
  function GrowIndex(b: Box, x: real, y: real): nat {
    2 * Bit(y < b.y0) + Bit(x < b.x0)
  }

  lemma HalvingFloor(r: real, r': real)
    requires 1.0 <= r && 0.0 <= r' && r' * 2.0 <= r
    ensures r'.Floor < r.Floor
  {
  }

  lemma DivMono(m: real, m': real, w: real)
    requires 0.0 < w && 0.0 <= m' <= m
    ensures m' / w <= m / w
  {
  }

  /** Halving the ratio of two distances that is at least one lowers its
      floor: the measure of both doubling loops. */
  lemma RatioHalves(m: real, m': real, w: real)
    requires 0.0 < w <= m && 0.0 <= m' <= m
    ensures (m' / (2.0 * w)).Floor < (m / w).Floor
  {
    RatioAtLeastOne(m, w);
    HalvedRatio(m, m', w);
    HalvingFloor(m / w, m' / (2.0 * w));
  }

  lemma RatioAtLeastOne(m: real, w: real)
    requires 0.0 < w <= m
    ensures 1.0 <= m / w
  {
    assert (m / w) * w == m;
  }

  lemma HalvedRatio(m: real, m': real, w: real)
    requires 0.0 < w && 0.0 <= m' <= m
    ensures 0.0 <= m' / (2.0 * w) && (m' / (2.0 * w)) * 2.0 <= m / w
  {
    DivMono(m, m', 2.0 * w);
    assert (m / (2.0 * w)) * 2.0 == m / w;
  }

  /** Along one axis, doubling towards the point never increases its reach
      beyond the larger of the old reach and the old side. */
  lemma ReachStep(lo: real, hi: real, v: real)
    requires lo < hi
    ensures var w := hi - lo;
      var lo' := if v < lo then hi - 2.0 * w else lo;
      0.0 <= Reach(lo', lo' + 2.0 * w, v) <= Max(Reach(lo, hi, v), w)
  {
  }

  /** One growth step doubles the side and keeps the old square as the
      quadrant `GrowIndex` of the new one. */
  lemma GrowStep(b: Box, x: real, y: real)
    requires Square(b) && !Inside(b, x, y)
    ensures var b' := GrowBox(b, GrowIndex(b, x, y), 2.0 * Width(b));
      && Square(b') && Width(b') == 2.0 * Width(b)
      && Quadrant(b', GrowIndex(b, x, y)) == b && Contains(b', b)
      && GrowSteps(b', x, y) < GrowSteps(b, x, y)
  {
    GrowShape(b, x, y);
    var i := GrowIndex(b, x, y);
    var w := Width(b);
    var b' := GrowBox(b, i, 2.0 * w);
    var m := Max(Reach(b.x0, b.x1, x), Reach(b.y0, b.y1, y));
    var m' := Max(Reach(b'.x0, b'.x1, x), Reach(b'.y0, b'.y1, y));
    GrowReach(b, x, y);
    RatioHalves(m, m', w);
  }

  lemma GrowShape(b: Box, x: real, y: real)
    requires Square(b)
    ensures var b' := GrowBox(b, GrowIndex(b, x, y), 2.0 * Width(b));
      && Square(b') && Width(b') == 2.0 * Width(b)
      && Quadrant(b', GrowIndex(b, x, y)) == b && Contains(b', b)
  {
  }

  /** After one doubling the point is no farther, in units of the old
      side, than before, and it was at least one side away. */
  lemma GrowReach(b: Box, x: real, y: real)
    requires Square(b) && !Inside(b, x, y)
    ensures var b' := GrowBox(b, GrowIndex(b, x, y), 2.0 * Width(b));
      var m := Max(Reach(b.x0, b.x1, x), Reach(b.y0, b.y1, y));
      && Width(b) <= m
      && 0.0 <= Max(Reach(b'.x0, b'.x1, x), Reach(b'.y0, b'.y1, y)) <= m
  {
    var w := Width(b);
    var b' := GrowBox(b, GrowIndex(b, x, y), 2.0 * w);
    ReachStep(b.x0, b.x1, x);
    ReachStep(b.y0, b.y1, y);
    assert b'.x0 == if x < b.x0 then b.x1 - 2.0 * w else b.x0;
    assert b'.y0 == if y < b.y0 then b.y1 - 2.0 * w else b.y0;
  }

  /** The doubling loop of `cover`: wraps `node` in new internal nodes until
      the square covers `(x, y)`. */
  function Grow<E, A>(b: Box, node: Option<QNode<E, A>>, x: real, y: real, blank: A): (r: (Box, Option<QNode<E, A>>))
    requires Square(b)
    ensures Square(r.0) && Inside(r.0, x, y) && Contains(r.0, b)
    ensures Inside(b, x, y) ==> r == (b, node)
    decreases GrowSteps(b, x, y)
  {
    if Inside(b, x, y) then (b, node)
    else
      var i := GrowIndex(b, x, y);
      var parent := Set(NewInternal(blank), i, node);
      GrowStep(b, x, y);
      Grow(GrowBox(b, i, 2.0 * Width(b)), Some(parent), x, y, blank)
  }

  /** Growing keeps the wrapped subtree well placed and its elements. */
  lemma {:induction false} GrowKeepsNode<E, A>(ax: Axes<E>, b: Box, node: Option<QNode<E, A>>, x: real, y: real, blank: A)
    requires Square(b) && (node.Some? ==> NodeOk(ax, node.value, b))
    ensures var r := Grow(b, node, x, y, blank);
      (r.1.Some? ==> NodeOk(ax, r.1.value, r.0)) && SlotItems(r.1) == SlotItems(node)
    decreases GrowSteps(b, x, y)
  {
    if !Inside(b, x, y) {
      var i := GrowIndex(b, x, y);
      var p := Set(NewInternal(blank), i, node);
      var b' := GrowBox(b, i, 2.0 * Width(b));
      GrowStep(b, x, y);
      assert NodeOk(ax, p, b');
      PlacedItems(p, i, node);
      GrowKeepsNode(ax, b', Some(p), x, y, blank);
    }
  }

  /** A fresh internal node holding only `c` in slot `i` lists exactly the
      elements of `c`. */
  lemma PlacedItems<E, A>(p: QNode<E, A>, i: nat, c: Option<QNode<E, A>>)
    requires p.Internal? && |p.kids| == 4 && i < 4
    requires forall j | 0 <= j < 4 :: p.kids[j] == (if j == i then c else None)
    ensures Items(p) == SlotItems(c)
  {
    assert KidsItems(p, 1) == SlotItems(p.kids[0]);
    assert KidsItems(p, 2) == KidsItems(p, 1) + SlotItems(p.kids[1]);
    assert KidsItems(p, 3) == KidsItems(p, 2) + SlotItems(p.kids[2]);
    assert KidsItems(p, 4) == KidsItems(p, 3) + SlotItems(p.kids[3]);
  }

  function UnitCell(x: real, y: real): (b: Box)
    ensures Square(b) && Inside(b, x, y) && Width(b) == 1.0
  {
    Box(x.Floor as real, y.Floor as real, x.Floor as real + 1.0, y.Floor as real + 1.0)
  }

  /** `cover(x, y)`: a NaN coordinate changes nothing; a tree without
      extent gets the unit cell at the point's integer floor; otherwise the
      square doubles until it covers the point, and the root is replaced by
      the wrapping node only when it was internal. */
  function Cover<E, A>(t: QuadTree<E, A>, x: Option<real>, y: Option<real>, blank: A): (r: QuadTree<E, A>)
    requires t.extent.Some? ==> Square(t.extent.value)
    ensures x.None? || y.None? ==> r == t
    ensures x.Some? && y.Some? ==> r.extent.Some? && Square(r.extent.value) && Inside(r.extent.value, x.value, y.value)
    ensures x.Some? && y.Some? && t.extent.None? ==> r == QuadTree(Some(UnitCell(x.value, y.value)), t.root)
    ensures t.extent.Some? ==> r.extent.Some? && Contains(r.extent.value, t.extent.value)
    ensures t.extent.Some? && x.Some? && y.Some? && Inside(t.extent.value, x.value, y.value) ==> r == t
    ensures t.root.None? || IsLeaf(t.root.value) ==> r.root == t.root
  {
    if x.None? || y.None? then t
    else if t.extent.None? then QuadTree(Some(UnitCell(x.value, y.value)), t.root)
    else
      var g := Grow(t.extent.value, t.root, x.value, y.value, blank);
      QuadTree(Some(g.0), if t.root.Some? && HasChildren(t.root.value) then g.1 else t.root)
  }

  lemma CoverKeepsTree<E, A>(ax: Axes<E>, t: QuadTree<E, A>, x: Option<real>, y: Option<real>, blank: A)
    requires TreeOk(ax, t)
    ensures TreeOk(ax, Cover(t, x, y, blank)) && TreeItems(Cover(t, x, y, blank)) == TreeItems(t)
  {
    if x.Some? && y.Some? && t.extent.Some? {
      GrowKeepsNode(ax, t.extent.value, t.root, x.value, y.value, blank);
      if t.root.Some? && IsLeaf(t.root.value) {
        var g := Grow(t.extent.value, t.root, x.value, y.value, blank);
        LeafWidens(ax, t.root.value, t.extent.value, g.0);
      }
    }
  }

  // ---------------------------------------------------------------------
  // add

  function SplitSteps(b: Box, x: real, y: real, xp: real, yp: real): nat
    requires Square(b) && (x != xp || y != yp)
  {
    var dist := Max(Abs(x - xp), Abs(y - yp));
    assert dist > 0.0;
    var r := Width(b) / dist;
    if r < 0.0 then 0 else r.Floor
  }

  lemma SplitStep(b: Box, x: real, y: real, xp: real, yp: real)
    requires Square(b) && Inside(b, x, y) && Inside(b, xp, yp) && (x != xp || y != yp)
    requires ChildIndex(b, x, y) == ChildIndex(b, xp, yp)
    ensures var q := Quadrant(b, ChildIndex(b, x, y));
      Square(q) && Inside(q, x, y) && Inside(q, xp, yp) && SplitSteps(q, x, y, xp, yp) < SplitSteps(b, x, y, xp, yp)
  {
    var i := ChildIndex(b, x, y);
    var q := Quadrant(b, i);
    QuadrantOf(b, x, y);
    QuadrantOf(b, xp, yp);
    QuadrantShape(b, i);
    var dist := Max(Abs(x - xp), Abs(y - yp));
    var w := Width(b);
    assert 0.0 < dist < w;
    assert Width(q) == w / 2.0;
    HalfRatio(w, dist);
  }

  lemma HalfRatio(w: real, dist: real)
    requires 0.0 < dist < w
    ensures ((w / 2.0) / dist).Floor < (w / dist).Floor
  {
    var r := w / dist;
    assert (w / 2.0) / dist == r / 2.0;
    DivMono(w, dist, dist);
    HalvingFloor(r, r / 2.0);
  }

  /** The `do … while` of `add`: internal nodes are inserted until the
      existing point `(xp, yp)` and the new point `(x, y)` fall into
      different slots, where the existing leaf and the new leaf become
      siblings. */
  function Split<E, A>(leaf: QNode<E, A>, b: Box, d: E, x: real, y: real, xp: real, yp: real, blank: A): (r: QNode<E, A>)
    requires Square(b) && Inside(b, x, y) && Inside(b, xp, yp) && (x != xp || y != yp)
    ensures r.Internal? && |r.kids| == 4
    decreases SplitSteps(b, x, y, xp, yp)
  {
    var i := ChildIndex(b, x, y);
    var j := ChildIndex(b, xp, yp);
    var parent := NewInternal(blank);
    if i == j then
      SplitStep(b, x, y, xp, yp);
      Set(parent, i, Some(Split(leaf, Quadrant(b, i), d, x, y, xp, yp, blank)))
    else
      Set(Set(parent, j, Some(leaf)), i, Some(NewLeaf(d, blank)))
  }

  lemma {:induction false} SplitKeepsNode<E, A>(ax: Axes<E>, leaf: QNode<E, A>, b: Box, d: E, x: real, y: real, xp: real, yp: real, blank: A)
    requires Square(b) && Inside(b, x, y) && Inside(b, xp, yp) && (x != xp || y != yp)
    requires leaf.Leaf? && NodeOk(ax, leaf, b) && X(ax, leaf.data) == xp && Y(ax, leaf.data) == yp
    requires Valid(ax, d) && X(ax, d) == x && Y(ax, d) == y
    ensures var r := Split(leaf, b, d, x, y, xp, yp, blank);
      NodeOk(ax, r, b) && multiset(Items(r)) == multiset(Items(leaf)) + multiset{d}
    decreases SplitSteps(b, x, y, xp, yp)
  {
    var i := ChildIndex(b, x, y);
    var j := ChildIndex(b, xp, yp);
    if i == j {
      QuadrantOf(b, x, y);
      SplitStep(b, x, y, xp, yp);
      var sub := Split(leaf, Quadrant(b, i), d, x, y, xp, yp, blank);
      SplitKeepsNode(ax, leaf, Quadrant(b, i), d, x, y, xp, yp, blank);
      PlaceOne(ax, b, i, sub, blank);
    } else {
      SplitApart(ax, leaf, b, d, x, y, xp, yp, blank);
    }
  }

  /** A fresh internal node with one child in slot `i` is well placed and
      holds that child's elements. */
  lemma PlaceOne<E, A>(ax: Axes<E>, b: Box, i: nat, sub: QNode<E, A>, blank: A)
    requires i < 4 && NodeOk(ax, sub, Quadrant(b, i))
    ensures var r := Set(NewInternal(blank), i, Some(sub));
      NodeOk(ax, r, b) && Items(r) == Items(sub)
  {
    var r := Set(NewInternal(blank), i, Some(sub));
    assert forall k | 0 <= k < 4 :: r.kids[k] == (if k == i then Some(sub) else None);
    PlacedItems(r, i, Some(sub));
  }

  /** The last step of the split: the old leaf and the new one go into
      different slots of a fresh internal node. */
  lemma SplitApart<E, A>(ax: Axes<E>, leaf: QNode<E, A>, b: Box, d: E, x: real, y: real, xp: real, yp: real, blank: A)
    requires Square(b) && Inside(b, x, y) && Inside(b, xp, yp) && ChildIndex(b, x, y) != ChildIndex(b, xp, yp)
    requires leaf.Leaf? && NodeOk(ax, leaf, b) && X(ax, leaf.data) == xp && Y(ax, leaf.data) == yp
    requires Valid(ax, d) && X(ax, d) == x && Y(ax, d) == y
    ensures var p1 := Set(NewInternal(blank), ChildIndex(b, xp, yp), Some(leaf));
      var r := Set(p1, ChildIndex(b, x, y), Some(NewLeaf(d, blank)));
      NodeOk(ax, r, b) && multiset(Items(r)) == multiset(Items(leaf)) + multiset{d}
  {
    var i := ChildIndex(b, x, y);
    var j := ChildIndex(b, xp, yp);
    QuadrantOf(b, x, y);
    QuadrantOf(b, xp, yp);
    assert NodeOk(ax, leaf, Quadrant(b, j));
    assert NodeOk(ax, NewLeaf<E, A>(d, blank), Quadrant(b, i));
    PlaceTwo(ax, b, j, leaf, i, NewLeaf(d, blank), blank);
  }

  /** A fresh internal node with children in two different slots is well
      placed and holds the elements of both. */
  lemma PlaceTwo<E, A>(ax: Axes<E>, b: Box, j: nat, c: QNode<E, A>, i: nat, e: QNode<E, A>, blank: A)
    requires i < 4 && j < 4 && i != j
    requires NodeOk(ax, c, Quadrant(b, j)) && NodeOk(ax, e, Quadrant(b, i))
    ensures var r := Set(Set(NewInternal(blank), j, Some(c)), i, Some(e));
      NodeOk(ax, r, b) && multiset(Items(r)) == multiset(Items(c)) + multiset(Items(e))
  {
    var p1 := Set(NewInternal<E, A>(blank), j, Some(c));
    TwoSlots(p1, j, c, i, e);
    PlaceTwoOk(ax, b, Set(p1, i, Some(e)), j, c, i, e);
    PlacedItems(p1, j, Some(c));
    KidsItemsSet(p1, i, Some(e), 4);
  }

  /** The slots of a fresh internal node after two writes. */
  lemma TwoSlots<E, A>(p1: QNode<E, A>, j: nat, c: QNode<E, A>, i: nat, e: QNode<E, A>)
    requires i < 4 && j < 4 && i != j
    requires p1.Internal? && |p1.kids| == 4
    requires forall k | 0 <= k < 4 :: Get(p1, k) == (if k == j then Some(c) else None)
    ensures forall k | 0 <= k < 4 :: p1.kids[k] == (if k == j then Some(c) else None)
    ensures forall k | 0 <= k < 4 ::
      Set(p1, i, Some(e)).kids[k] == (if k == i then Some(e) else if k == j then Some(c) else None)
  {
    var r := Set(p1, i, Some(e));
    forall k | 0 <= k < 4
      ensures p1.kids[k] == (if k == j then Some(c) else None)
      ensures r.kids[k] == (if k == i then Some(e) else if k == j then Some(c) else None)
    {
      assert Get(p1, k) == p1.kids[k];
      assert Get(r, k) == r.kids[k];
    }
  }

  /** A four-slot internal node whose only children are `c` in slot `j`
      and `e` in slot `i`, each well placed there, is well placed. */
  lemma PlaceTwoOk<E, A>(ax: Axes<E>, b: Box, r: QNode<E, A>, j: nat, c: QNode<E, A>, i: nat, e: QNode<E, A>)
    requires i < 4 && j < 4 && i != j
    requires NodeOk(ax, c, Quadrant(b, j)) && NodeOk(ax, e, Quadrant(b, i))
    requires r.Internal? && |r.kids| == 4
    requires forall k | 0 <= k < 4 :: r.kids[k] == (if k == i then Some(e) else if k == j then Some(c) else None)
    ensures NodeOk(ax, r, b)
  {
  }

  /** Descent of `add` from node `q` with bounds `b`: an empty slot receives
      the new leaf, an exactly coincident leaf gets the new datum prepended
      to its chain, any other leaf is split. */
  function InsertNode<E, A>(ax: Axes<E>, q: QNode<E, A>, b: Box, d: E, x: real, y: real, blank: A): (r: QNode<E, A>)
    requires NodeOk(ax, q, b) && Square(b) && Inside(b, x, y)
    requires Valid(ax, d) && X(ax, d) == x && Y(ax, d) == y
    ensures NodeOk(ax, r, b)
    ensures multiset(Items(r)) == multiset(Items(q)) + multiset{d}
    decreases q, 1
  {
    if q.Internal? then InsertBelow(ax, q, b, d, x, y, blank)
    else if X(ax, q.data) == x && Y(ax, q.data) == y then Prepend(ax, q, b, d, blank)
    else
      SplitKeepsNode(ax, q, b, d, x, y, X(ax, q.data), Y(ax, q.data), blank);
      Split(q, b, d, x, y, X(ax, q.data), Y(ax, q.data), blank)
  }

  /** The new datum heads the chain of a leaf at exactly its coordinates. */
  function Prepend<E, A>(ax: Axes<E>, q: QNode<E, A>, b: Box, d: E, blank: A): (r: QNode<E, A>)
    requires q.Leaf? && NodeOk(ax, q, b)
    requires Valid(ax, d) && X(ax, d) == X(ax, q.data) && Y(ax, d) == Y(ax, q.data)
    ensures r.Leaf? && r.data == d && Chain(r) == [d] + Chain(q)
    ensures NodeOk(ax, r, b)
  {
    var r := Leaf(d, [q.data] + q.next, blank);
    assert forall k | 0 <= k < |r.next| :: k == 0 || r.next[k] == q.next[k - 1];
    r
  }

  /** One step of the descent through an internal node. */
  function InsertBelow<E, A>(ax: Axes<E>, q: QNode<E, A>, b: Box, d: E, x: real, y: real, blank: A): (r: QNode<E, A>)
    requires q.Internal? && NodeOk(ax, q, b) && Square(b) && Inside(b, x, y)
    requires Valid(ax, d) && X(ax, d) == x && Y(ax, d) == y
    ensures NodeOk(ax, r, b)
    ensures multiset(Items(r)) == multiset(Items(q)) + multiset{d}
    decreases q, 0
  {
    var i := ChildIndex(b, x, y);
    QuadrantOf(b, x, y);
    QuadrantShape(b, i);
    var c := if q.kids[i].None? then NewLeaf(d, blank)
             else InsertNode(ax, q.kids[i].value, Quadrant(b, i), d, x, y, blank);
    assert multiset(SlotItems(Some(c))) == multiset(SlotItems(q.kids[i])) + multiset{d} by {
      if q.kids[i].None? {
        assert Items(c) == [d];
      }
    }
    SlotGains(q, i, c, d);
    SetKeepsNode(ax, q, b, i, c);
    Set(q, i, Some(c))
  }

  lemma SlotGains<E, A>(q: QNode<E, A>, i: nat, c: QNode<E, A>, d: E)
    requires q.Internal? && |q.kids| == 4 && i < 4
    requires multiset(Items(c)) == multiset(SlotItems(q.kids[i])) + multiset{d}
    ensures multiset(Items(Set(q, i, Some(c)))) == multiset(Items(q)) + multiset{d}
  {
    KidsItemsSet(q, i, Some(c), 4);
    var r := Set(q, i, Some(c));
    assert Items(r) == KidsItems(r, 4) && Items(q) == KidsItems(q, 4);
    var before := multiset(SlotItems(q.kids[i]));
    assert multiset(SlotItems(Some(c))) == before + multiset{d};
    Cancel(multiset(Items(r)), multiset(Items(q)) + multiset{d}, before);
  }

  lemma Cancel<T>(a: multiset<T>, b: multiset<T>, c: multiset<T>)
    requires a + c == b + c
    ensures a == b
  {
    forall x
      ensures a[x] == b[x]
    {
      assert (a + c)[x] == (b + c)[x];
    }
  }

  lemma SetKeepsNode<E, A>(ax: Axes<E>, q: QNode<E, A>, b: Box, i: nat, c: QNode<E, A>)
    requires q.Internal? && NodeOk(ax, q, b) && i < 4 && NodeOk(ax, c, Quadrant(b, i))
    ensures NodeOk(ax, Set(q, i, Some(c)), b)
  {
    var r := Set(q, i, Some(c));
    assert forall j | 0 <= j < 4 :: r.kids[j] == if j == i then Some(c) else q.kids[j];
  }

  /** The private static `add(tree, x, y, d)`: a NaN coordinate changes
      nothing; an empty tree gets the new leaf as its root. The callers cover
      the point first. */
  function AddPoint<E, A>(ax: Axes<E>, t: QuadTree<E, A>, x: Option<real>, y: Option<real>, d: E, blank: A): (r: QuadTree<E, A>)
    requires TreeOk(ax, t)
    requires x.Some? && y.Some? ==>
      && Valid(ax, d) && X(ax, d) == x.value && Y(ax, d) == y.value
      && t.extent.Some? && Inside(t.extent.value, x.value, y.value)
    ensures TreeOk(ax, r) && r.extent == t.extent
    ensures x.None? || y.None? ==> r == t
    ensures x.Some? && y.Some? ==> multiset(TreeItems(r)) == multiset(TreeItems(t)) + multiset{d}
    ensures x.Some? && y.Some? && t.root.None? ==> r.root == Some(NewLeaf(d, blank))
  {
    if x.None? || y.None? then t
    else if t.root.None? then
      assert Items(NewLeaf(d, blank)) == [d];
      QuadTree(t.extent, Some(NewLeaf(d, blank)))
    else QuadTree(t.extent, Some(InsertNode(ax, t.root.value, t.extent.value, d, x.value, y.value, blank)))
  }

  /** The public `add(d)`: cover the datum's point, then insert it. */
  function Add<E, A>(ax: Axes<E>, t: QuadTree<E, A>, d: E, blank: A): (r: QuadTree<E, A>)
    requires TreeOk(ax, t)
    ensures TreeOk(ax, r)
    ensures !Valid(ax, d) ==> r == t
    ensures Valid(ax, d) ==> multiset(TreeItems(r)) == multiset(TreeItems(t)) + multiset{d}
    ensures Valid(ax, d) ==> r.extent.Some? && Inside(r.extent.value, X(ax, d), Y(ax, d))
    ensures t.extent.Some? ==> r.extent.Some? && Contains(r.extent.value, t.extent.value)
  {
    var t1 := Cover(t, ax.x(d), ax.y(d), blank);
    CoverKeepsTree(ax, t, ax.x(d), ax.y(d), blank);
    AddPoint(ax, t1, ax.x(d), ax.y(d), d, blank)
  }

  /** The rectangle spanned by the points of `data` (the first loop of
      `addAll`): the smallest one holding them all, each side reached by
      some point. */
  function Bounds<E>(ax: Axes<E>, data: seq<E>): (bb: Box)
    requires |data| > 0 && forall k | 0 <= k < |data| :: Valid(ax, data[k])
    ensures bb.x0 <= bb.x1 && bb.y0 <= bb.y1
    ensures forall k | 0 <= k < |data| ::
      bb.x0 <= X(ax, data[k]) <= bb.x1 && bb.y0 <= Y(ax, data[k]) <= bb.y1
    ensures exists k | 0 <= k < |data| :: X(ax, data[k]) == bb.x0
    ensures exists k | 0 <= k < |data| :: X(ax, data[k]) == bb.x1
    ensures exists k | 0 <= k < |data| :: Y(ax, data[k]) == bb.y0
    ensures exists k | 0 <= k < |data| :: Y(ax, data[k]) == bb.y1
  {
    var d := data[|data| - 1];
    if |data| == 1 then Box(X(ax, d), Y(ax, d), X(ax, d), Y(ax, d))
    else
      var bb := Bounds(ax, data[..|data| - 1]);
      assert forall k | 0 <= k < |data| - 1 :: data[k] == data[..|data| - 1][k];
      Box(if X(ax, d) < bb.x0 then X(ax, d) else bb.x0, if Y(ax, d) < bb.y0 then Y(ax, d) else bb.y0,
          if X(ax, d) > bb.x1 then X(ax, d) else bb.x1, if Y(ax, d) > bb.y1 then Y(ax, d) else bb.y1)
  }

  /** The second loop of `addAll`: insert every datum, in list order, into
      a tree whose extent already covers them all. */
  function AddEach<E, A>(ax: Axes<E>, t: QuadTree<E, A>, data: seq<E>, blank: A): (r: QuadTree<E, A>)
    requires TreeOk(ax, t) && t.extent.Some?
    requires forall k | 0 <= k < |data| :: Valid(ax, data[k]) && Inside(t.extent.value, X(ax, data[k]), Y(ax, data[k]))
    ensures TreeOk(ax, r) && r.extent == t.extent
    ensures multiset(TreeItems(r)) == multiset(TreeItems(t)) + multiset(data)
    decreases |data|
  {
    if |data| == 0 then t
    else
      var d := data[0];
      var t1 := AddPoint(ax, t, ax.x(d), ax.y(d), d, blank);
      assert data == [d] + data[1..];
      assert multiset(data) == multiset{d} + multiset(data[1..]);
      var r := AddEach(ax, t1, data[1..], blank);
      assert multiset(TreeItems(r)) == multiset(TreeItems(t)) + multiset(data) by {
        assert Valid(ax, d);
        assert ax.x(d).Some? && ax.y(d).Some?;
        assert multiset(TreeItems(t1)) == multiset(TreeItems(t)) + multiset{d};
        assert multiset(TreeItems(r)) == multiset(TreeItems(t1)) + multiset(data[1..]);
      }
      r
  }

  /** `addAll(data)`: cover the bounding rectangle of the points, then add
      every point. Every datum must have valid coordinates (see README). */
  function AddAll<E, A>(ax: Axes<E>, t: QuadTree<E, A>, data: seq<E>, blank: A): (r: QuadTree<E, A>)
    requires TreeOk(ax, t)
    requires forall k | 0 <= k < |data| :: Valid(ax, data[k])
    ensures TreeOk(ax, r)
    ensures multiset(TreeItems(r)) == multiset(TreeItems(t)) + multiset(data)
    ensures |data| == 0 ==> r == t
    ensures forall k | 0 <= k < |data| :: r.extent.Some? && Inside(r.extent.value, X(ax, data[k]), Y(ax, data[k]))
    ensures t.extent.Some? ==> r.extent.Some? && Contains(r.extent.value, t.extent.value)
  {
    if |data| == 0 then t
    else
      var bb := Bounds(ax, data);
      var t1 := Cover(t, Some(bb.x0), Some(bb.y0), blank);
      CoverKeepsTree(ax, t, Some(bb.x0), Some(bb.y0), blank);
      var t2 := Cover(t1, Some(bb.x1), Some(bb.y1), blank);
      CoverKeepsTree(ax, t1, Some(bb.x1), Some(bb.y1), blank);
      AddEach(ax, t2, data, blank)
  }

  /** The `quadTree` factory: an empty tree with every datum added. */
  function QuadTreeOf<E, A>(ax: Axes<E>, data: seq<E>, blank: A): (r: QuadTree<E, A>)
    requires forall k | 0 <= k < |data| :: Valid(ax, data[k])
    ensures TreeOk(ax, r)
    ensures multiset(TreeItems(r)) == multiset(data)
    ensures |data| == 0 <==> r == Empty()
  {
    var r := AddAll(ax, Empty(), data, blank);
    assert |data| > 0 ==> r.extent.Some? by {
      if |data| > 0 {
        assert Inside(r.extent.value, X(ax, data[0]), Y(ax, data[0]));
      }
    }
    r
  }
}
