/** What every force shares: the simulated node record (ForcedNode reduced
    to its numbers), the base class's null check and `notZero`, the
    `jiggle` of ForceAnimation, and the mathematical functions the forces
    call, taken as parameters. */
module ForceBase {
  import opened Wrappers

  /** A simulated node: its index, position, velocity and optional pin. */
  datatype Node = Node(index: int, x: real, y: real, vx: real, vy: real, fx: Option<real>, fy: Option<real>)

  /** `Math.sqrt`, known only to be positive on positive arguments and zero
      at zero. */
  type Sqrt = f: real -> real | forall v :: (0.0 < v ==> 0.0 < f(v)) && (v == 0.0 ==> f(v) == 0.0)
    witness (v: real) => if 0.0 < v then v else 0.0

  /** `Math.random()`, as the sequence of its draws: each lies in [0, 1).
      The single value 0.5, which would make a jiggle vanish, is excluded. */
  type Random = r: nat -> real | forall k: nat :: 0.0 <= r(k) < 1.0 && r(k) != 0.5
    witness (k: nat) => 0.0

  /** The library functions and constants the simulation calls. */
  datatype Maths = Maths(sqrt: Sqrt, cos: real -> real, sin: real -> real, pi: real, pow: (real, real) -> real)

  /** Errors the force constructors raise. */
  datatype ForceError = IllegalArgument

  /** `jiggle()` with the k-th draw of the random source: a tiny non-zero
      offset in [-5e-7, 5e-7). */
  function Jiggle(rnd: Random, k: nat): (j: real)
    ensures -0.0000005 <= j < 0.0000005
    ensures j != 0.0
  {
    (rnd(k) - 0.5) * 0.000001
  }

  /** A coordinate difference after the coincidence guard of the forces: a
      zero component is replaced by a jiggle (consuming one draw) whose
      square is added to the squared length `l`. */
  function JiggleZero(rnd: Random, k: nat, v: real, l: real): (r: (real, real, nat))
    ensures r.0 != 0.0
    ensures v != 0.0 ==> r == (v, l, k)
    ensures v == 0.0 ==> r.2 == k + 1 && r.1 == l + r.0 * r.0 && -0.0000005 <= r.0 < 0.0000005
  {
    if v == 0.0 then
      var j := Jiggle(rnd, k);
      (j, l + j * j, k + 1)
    else (v, l, k)
  }

  /** A product with the sign facts the forces rely on. */
  function Product(a: real, b: real): (r: real)
    ensures a > 0.0 && b > 0.0 ==> r > 0.0
    ensures a < 0.0 && b < 0.0 ==> r > 0.0
    ensures a == 0.0 || b == 0.0 ==> r == 0.0
  {
    a * b
  }

  /** A square: never negative, and positive for a non-zero argument. */
  function Sq(x: real): (r: real)
    ensures r >= 0.0
    ensures x != 0.0 ==> r > 0.0
  {
    Product(x, x)
  }

  /** For non-negative numbers, comparing squares is comparing the
      numbers. */
  lemma SquareOrder(d: real, e: real)
    requires d >= 0.0 && e >= 0.0
    ensures d < e <==> Sq(d) < Sq(e)
  {
    assert Sq(e) - Sq(d) == Product(e - d, e + d);
    assert Sq(d) - Sq(e) == Product(d - e, e + d);
  }

  lemma SquareSymmetric(a: real, b: real)
    ensures Sq(a - b) == Sq(b - a)
  {
    assert Sq(a - b) == Product(b - a, b - a);
  }

  /** A zero coordinate difference replaced by a jiggle. */
  function Unzero(rnd: Random, k: nat, v: real): (r: (real, nat))
    ensures r.0 != 0.0
    ensures v != 0.0 ==> r == (v, k)
    ensures v == 0.0 ==> r.1 == k + 1
  {
    if v == 0.0 then (Jiggle(rnd, k), k + 1) else (v, k)
  }

  /** `notZero(v, ifZero)`. */
  function NotZero(v: real, ifZero: real): (r: real)
    ensures r == v || r == ifZero
    ensures r == ifZero <==> v == 0.0 || v == ifZero
    ensures ifZero != 0.0 ==> r != 0.0
  {
    if v == 0.0 then ifZero else v
  }

  /** The constructor of `Force`: a missing node list is rejected, any
      other list is kept as it is. */
  function Attach(nodes: Option<seq<Node>>): (r: Result<seq<Node>, ForceError>)
    ensures nodes.None? <==> r.Err?
    ensures nodes.Some? ==> r == Ok(nodes.value)
  {
    if nodes.None? then Err(IllegalArgument) else Ok(nodes.value)
  }

  /** Two node lists that differ at most in velocities. */
  predicate SamePlaces(a: seq<Node>, b: seq<Node>) {
    && |a| == |b|
    && forall i | 0 <= i < |a| ::
         a[i].index == b[i].index && a[i].x == b[i].x && a[i].y == b[i].y && a[i].fx == b[i].fx && a[i].fy == b[i].fy
  }

  lemma SamePlacesTrans(a: seq<Node>, b: seq<Node>, c: seq<Node>)
    requires SamePlaces(a, b) && SamePlaces(b, c)
    ensures SamePlaces(a, c)
  {
  }

  /** Two node lists that agree in length, indices and pins: what every
      force and every integration step keeps. */
  predicate SameShape(a: seq<Node>, b: seq<Node>) {
    && |a| == |b|
    && forall i | 0 <= i < |a| :: a[i].index == b[i].index && a[i].fx == b[i].fx && a[i].fy == b[i].fy
  }

  /** Adds `(dx, dy)` to the velocity of node `i`. */
  function Push(nodes: seq<Node>, i: nat, dx: real, dy: real): (r: seq<Node>)
    requires i < |nodes|
    ensures SamePlaces(nodes, r)
    ensures r[i].vx == nodes[i].vx + dx && r[i].vy == nodes[i].vy + dy
    ensures forall j | 0 <= j < |nodes| && j != i :: r[j] == nodes[j]
  {
    nodes[i := nodes[i].(vx := nodes[i].vx + dx, vy := nodes[i].vy + dy)]
  }
}
