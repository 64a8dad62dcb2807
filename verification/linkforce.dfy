/** LinkForce: springs between linked nodes. Node degrees and link biases
    are computed once by the constructor; each application walks the links
    in list order. */
module LinkForces {
  import opened Wrappers
  import opened ForceBase

  /** A link between two nodes, given by their positions in the node list.
      `index` is assigned by the constructor. */
  datatype Link = Link(index: int, source: nat, target: nat)

  /** The state the constructor computes: the indexed links, the degree
      of every node index, and per link its bias, strength and rest
      distance. */
  datatype LinkForce = LinkForce(links: seq<Link>, count: seq<int>, bias: seq<real>, strengths: seq<real>, distances: seq<real>)

  /** Both ends of every link are in the node list, and their `index`
      fields are valid positions of the degree array (the source throws
      otherwise). */
  predicate Wired(nodes: seq<Node>, links: seq<Link>) {
    forall i | 0 <= i < |links| ::
      && links[i].source < |nodes| && links[i].target < |nodes|
      && 0 <= nodes[links[i].source].index < |nodes|
      && 0 <= nodes[links[i].target].index < |nodes|
  }

  /** The number of link ends at node index `v`: links with `v` as source
      plus links with `v` as target (a self-link counts twice). */
  function Degree(nodes: seq<Node>, links: seq<Link>, v: int): nat
    requires Wired(nodes, links)
    decreases |links|
  {
    if |links| == 0 then 0
    else
      var l := links[|links| - 1];
      Degree(nodes, links[..|links| - 1], v)
        + (if nodes[l.source].index == v then 1 else 0)
        + (if nodes[l.target].index == v then 1 else 0)
  }

  /** The constructor's first loop: every link gets its position as
      `index`, and `count` accumulates the degree of every node index. */
  method CountDegrees(nodes: seq<Node>, links: seq<Link>) returns (indexed: seq<Link>, count: seq<int>)
    requires Wired(nodes, links)
    ensures |indexed| == |links|
    ensures forall i | 0 <= i < |links| :: indexed[i] == links[i].(index := i)
    ensures |count| == |nodes|
    ensures forall v | 0 <= v < |nodes| :: count[v] == Degree(nodes, links, v)
  {
    indexed := [];
    count := seq(|nodes|, _ => 0);
    var i := 0;
    while i < |links|
      invariant 0 <= i <= |links|
      invariant |indexed| == i
      invariant forall j | 0 <= j < i :: indexed[j] == links[j].(index := j)
      invariant |count| == |nodes|
      invariant forall v | 0 <= v < |nodes| :: count[v] == Degree(nodes, links[..i], v)
    {
      indexed := indexed + [links[i].(index := i)];
      var s := nodes[links[i].source].index;
      count := count[s := count[s] + 1];
      var t := nodes[links[i].target].index;
      count := count[t := count[t] + 1];
      assert links[..i + 1][..i] == links[..i];
      i := i + 1;
    }
    assert links[..|links|] == links;
  }

  /** Every end of a link has degree at least one. */
  lemma {:induction false} EndpointDegree(nodes: seq<Node>, links: seq<Link>, i: nat)
    requires Wired(nodes, links) && i < |links|
    ensures Degree(nodes, links, nodes[links[i].source].index) >= 1
    ensures Degree(nodes, links, nodes[links[i].target].index) >= 1
    decreases |links|
  {
    if i < |links| - 1 {
      EndpointDegree(nodes, links[..|links| - 1], i);
    }
  }

  /** The degrees of the node indices below `hi`, summed. */
  function Total(nodes: seq<Node>, links: seq<Link>, hi: nat): nat
    requires Wired(nodes, links)
  {
    if hi == 0 then 0 else Total(nodes, links, hi - 1) + Degree(nodes, links, hi - 1)
  }

  /** 1 when `v` lies below `hi`. */
  function Below(v: int, hi: nat): nat {
    if 0 <= v < hi then 1 else 0
  }

  lemma {:induction false} TotalStep(nodes: seq<Node>, links: seq<Link>, hi: nat)
    requires Wired(nodes, links) && |links| > 0
    ensures var l := links[|links| - 1];
      Total(nodes, links, hi) == Total(nodes, links[..|links| - 1], hi)
        + Below(nodes[l.source].index, hi) + Below(nodes[l.target].index, hi)
  {
    if hi > 0 {
      TotalStep(nodes, links, hi - 1);
    }
  }

  /** Every link contributes two ends: the degrees sum to twice the number
      of links. */
  lemma {:induction false} DegreeSum(nodes: seq<Node>, links: seq<Link>)
    requires Wired(nodes, links)
    ensures Total(nodes, links, |nodes|) == 2 * |links|
    decreases |links|
  {
    if |links| == 0 {
      TotalOfNothing(nodes, links, |nodes|);
    } else {
      DegreeSum(nodes, links[..|links| - 1]);
      TotalStep(nodes, links, |nodes|);
    }
  }

  lemma {:induction false} TotalOfNothing(nodes: seq<Node>, links: seq<Link>, hi: nat)
    requires Wired(nodes, links) && |links| == 0
    ensures Total(nodes, links, hi) == 0
  {
    if hi > 0 {
      TotalOfNothing(nodes, links, hi - 1);
    }
  }

  /** `bias[i]`: the source's share of the two degrees. */
  function Bias(count: seq<int>, nodes: seq<Node>, l: Link): real
    requires l.source < |nodes| && l.target < |nodes|
    requires 0 <= nodes[l.source].index < |count| && 0 <= nodes[l.target].index < |count|
    requires count[nodes[l.source].index] + count[nodes[l.target].index] != 0
  {
    count[nodes[l.source].index] as real / (count[nodes[l.source].index] + count[nodes[l.target].index]) as real
  }

  /** The default strength: one over the smaller of the two degrees. */
  function DefaultStrength(count: seq<int>, nodes: seq<Node>, l: Link): real
    requires l.source < |nodes| && l.target < |nodes|
    requires 0 <= nodes[l.source].index < |count| && 0 <= nodes[l.target].index < |count|
    requires count[nodes[l.source].index] >= 1 && count[nodes[l.target].index] >= 1
  {
    var a := count[nodes[l.source].index];
    var b := count[nodes[l.target].index];
    1.0 / (if a < b then a else b) as real
  }

  /** The constructor: the null check of the base class, the degree
      count, then bias, strength and distance of every link, each computed
      once. */
  method NewLinkForce(nodes: Option<seq<Node>>, links: seq<Link>, distance: Link -> real) returns (r: Result<LinkForce, ForceError>)
    requires nodes.Some? ==> Wired(nodes.value, links)
    ensures nodes.None? <==> r.Err?
    ensures r.Ok? ==> Ready(r.value, nodes.value) && |r.value.links| == |links|
    ensures r.Ok? ==> forall i | 0 <= i < |links| :: r.value.links[i] == links[i].(index := i)
    ensures r.Ok? ==> forall v | 0 <= v < |nodes.value| :: r.value.count[v] == Degree(nodes.value, links, v)
    ensures r.Ok? ==> forall i | 0 <= i < |links| ::
      var l := links[i];
      var cs := Degree(nodes.value, links, nodes.value[l.source].index);
      var ct := Degree(nodes.value, links, nodes.value[l.target].index);
      && cs >= 1 && ct >= 1
      && 0.0 < r.value.bias[i] < 1.0
      && r.value.bias[i] == cs as real / (cs + ct) as real
      && r.value.strengths[i] == 1.0 / (if cs < ct then cs else ct) as real
      && r.value.distances[i] == distance(links[i].(index := i))
  {
    if nodes.None? {
      return Err(IllegalArgument);
    }
    var list := nodes.value;
    var indexed, count := CountDegrees(list, links);
    forall i | 0 <= i < |links|
      ensures count[list[links[i].source].index] >= 1 && count[list[links[i].target].index] >= 1
    {
      EndpointDegree(list, links, i);
    }
    var bias := seq(|links|, i requires 0 <= i < |links| => Bias(count, list, indexed[i]));
    var strengths := seq(|links|, i requires 0 <= i < |links| => DefaultStrength(count, list, indexed[i]));
    var distances := seq(|links|, i requires 0 <= i < |links| => distance(indexed[i]));
    forall i | 0 <= i < |links|
      ensures 0.0 < bias[i] < 1.0
    {
      var cs := count[list[links[i].source].index];
      var ct := count[list[links[i].target].index];
      ShareBounds(cs, ct);
    }
    r := Ok(LinkForce(indexed, count, bias, strengths, distances));
  }

  lemma ShareBounds(a: int, b: int)
    requires a >= 1 && b >= 1
    ensures 0.0 < a as real / (a + b) as real < 1.0
  {
    var s := (a + b) as real;
    assert a as real < s;
    assert a as real / s < s / s;
  }

  /** The arrays match the links, and the links match the nodes. */
  predicate Ready(f: LinkForce, nodes: seq<Node>) {
    && Wired(nodes, f.links)
    && |f.bias| == |f.links| && |f.strengths| == |f.links| && |f.distances| == |f.links|
    && |f.count| == |nodes|
  }

  // ---------------------------------------------------------------------
  // One link

  /** The look-ahead vector from source to target: both positions one
      velocity step ahead. */
  function LookAhead(nodes: seq<Node>, l: Link): (real, real)
    requires l.source < |nodes| && l.target < |nodes|
  {
    var s := nodes[l.source];
    var t := nodes[l.target];
    (t.x + t.vx - s.x - s.vx, t.y + t.vy - s.y - s.vy)
  }

  /** The spring factor of a link whose vector `(x, y)` has a non-zero
      component: `(length - distance) / length * alpha * strength`. */
  function Spring(m: Maths, x: real, y: real, distance: real, alpha: real, strength: real): real
    requires x != 0.0
  {
    var len := m.sqrt(Sq(x) + Sq(y));
    (len - distance) / len * alpha * strength
  }

  /** Scales `(x, y)` by `g` and applies it to the target (minus, weight
      `b`) and then to the source (plus, weight `1 - b`). */
  function Apply(nodes: seq<Node>, l: Link, x: real, y: real, g: real, b: real): (r: seq<Node>)
    requires l.source < |nodes| && l.target < |nodes|
    ensures SamePlaces(nodes, r)
    ensures forall j | 0 <= j < |nodes| && j != l.source && j != l.target :: r[j] == nodes[j]
    ensures l.source != l.target ==>
      && r[l.target].vx == nodes[l.target].vx - x * g * b && r[l.target].vy == nodes[l.target].vy - y * g * b
      && r[l.source].vx == nodes[l.source].vx + x * g * (1.0 - b) && r[l.source].vy == nodes[l.source].vy + y * g * (1.0 - b)
  {
    var sx, sy := x * g, y * g;
    var afterTarget := Push(nodes, l.target, -(sx * b), -(sy * b));
    Push(afterTarget, l.source, sx * (1.0 - b), sy * (1.0 - b))
  }

  /** One link as D3 defines it: a zero component of the look-ahead
      vector is replaced by a jiggle (drawn in the order x, then y), so
      the length is never zero. Returns the nodes and the next draw. */
  function LinkStep(m: Maths, rnd: Random, k: nat, f: LinkForce, nodes: seq<Node>, i: nat, alpha: real): (r: (seq<Node>, nat))
    requires Ready(f, nodes) && i < |f.links|
    ensures SamePlaces(nodes, r.0)
    ensures forall j | 0 <= j < |nodes| && j != f.links[i].source && j != f.links[i].target :: r.0[j] == nodes[j]
    ensures k <= r.1 <= k + 2
  {
    var l := f.links[i];
    var v := LookAhead(nodes, l);
    var jx := JiggleZero(rnd, k, v.0, 0.0);
    var jy := JiggleZero(rnd, jx.2, v.1, 0.0);
    var g := Spring(m, jx.0, jy.0, f.distances[i], alpha, f.strengths[i]);
    (Apply(nodes, l, jx.0, jy.0, g, f.bias[i]), jy.2)
  }

  /** With no zero component no draw is made, and the step applies the
      look-ahead vector scaled by the spring factor. */
  lemma LinkStepPlain(m: Maths, rnd: Random, k: nat, f: LinkForce, nodes: seq<Node>, i: nat, alpha: real)
    requires Ready(f, nodes) && i < |f.links|
    requires var v := LookAhead(nodes, f.links[i]); v.0 != 0.0 && v.1 != 0.0
    ensures var v := LookAhead(nodes, f.links[i]);
      var g := Spring(m, v.0, v.1, f.distances[i], alpha, f.strengths[i]);
      LinkStep(m, rnd, k, f, nodes, i, alpha) == (Apply(nodes, f.links[i], v.0, v.1, g, f.bias[i]), k)
  {
    var l := f.links[i];
    var v := LookAhead(nodes, l);
    var jx := JiggleZero(rnd, k, v.0, 0.0);
    assert jx.0 == v.0 && jx.2 == k;
    var jy := JiggleZero(rnd, jx.2, v.1, 0.0);
    assert jy.0 == v.1 && jy.2 == k;
    var g := Spring(m, jx.0, jy.0, f.distances[i], alpha, f.strengths[i]);
    assert LinkStep(m, rnd, k, f, nodes, i, alpha) == (Apply(nodes, l, jx.0, jy.0, g, f.bias[i]), jy.2);
  }

  lemma PushNothing(nodes: seq<Node>, i: nat)
    requires i < |nodes|
    ensures Push(nodes, i, 0.0, 0.0) == nodes
  {
    assert nodes[i].(vx := nodes[i].vx + 0.0, vy := nodes[i].vy + 0.0) == nodes[i];
  }

  lemma ApplyNothing(nodes: seq<Node>, l: Link, x: real, y: real, b: real)
    requires l.source < |nodes| && l.target < |nodes|
    ensures Apply(nodes, l, x, y, 0.0, b) == nodes
  {
    assert x * 0.0 == 0.0 && y * 0.0 == 0.0;
    assert -(0.0 * b) == 0.0 && 0.0 * (1.0 - b) == 0.0;
    PushNothing(nodes, l.target);
    PushNothing(nodes, l.source);
  }

  /** A link whose look-ahead length already equals its distance changes
      nothing. */
  lemma LinkAtRest(m: Maths, rnd: Random, k: nat, f: LinkForce, nodes: seq<Node>, i: nat, alpha: real)
    requires Ready(f, nodes) && i < |f.links|
    requires var v := LookAhead(nodes, f.links[i]);
      v.0 != 0.0 && v.1 != 0.0 && m.sqrt(Sq(v.0) + Sq(v.1)) == f.distances[i]
    ensures LinkStep(m, rnd, k, f, nodes, i, alpha) == (nodes, k)
  {
    var v := LookAhead(nodes, f.links[i]);
    LinkStepPlain(m, rnd, k, f, nodes, i, alpha);
    assert Spring(m, v.0, v.1, f.distances[i], alpha, f.strengths[i]) == 0.0;
    ApplyNothing(nodes, f.links[i], v.0, v.1, f.bias[i]);
  }

  /** For two distinct nodes the change splits the scaled vector: the
      source gains exactly the part the target loses and the rest, so the
      source's change minus the target's is the whole vector, and the
      target's share is the bias. */
  lemma LinkSplitsVector(m: Maths, rnd: Random, k: nat, f: LinkForce, nodes: seq<Node>, i: nat, alpha: real)
    requires Ready(f, nodes) && i < |f.links|
    requires f.links[i].source != f.links[i].target
    requires var v := LookAhead(nodes, f.links[i]); v.0 != 0.0 && v.1 != 0.0
    ensures var l := f.links[i];
      var v := LookAhead(nodes, l);
      var g := Spring(m, v.0, v.1, f.distances[i], alpha, f.strengths[i]);
      var r := LinkStep(m, rnd, k, f, nodes, i, alpha).0;
      && (r[l.source].vx - nodes[l.source].vx) - (r[l.target].vx - nodes[l.target].vx) == v.0 * g
      && (r[l.source].vy - nodes[l.source].vy) - (r[l.target].vy - nodes[l.target].vy) == v.1 * g
      && r[l.target].vx - nodes[l.target].vx == -(v.0 * g * f.bias[i])
      && r[l.target].vy - nodes[l.target].vy == -(v.1 * g * f.bias[i])
  {
    LinkStepPlain(m, rnd, k, f, nodes, i, alpha);
    var l := f.links[i];
    var v := LookAhead(nodes, l);
    var g := Spring(m, v.0, v.1, f.distances[i], alpha, f.strengths[i]);
    var b := f.bias[i];
    assert v.0 * g * b + v.0 * g * (1.0 - b) == v.0 * g;
    assert v.1 * g * b + v.1 * g * (1.0 - b) == v.1 * g;
  }

  // ---------------------------------------------------------------------
  // The whole force

  /** `force(alpha)` from link `i` on: links in list order, each seeing
      the velocities the earlier ones produced. */
  function LinkPass(m: Maths, rnd: Random, k: nat, f: LinkForce, nodes: seq<Node>, i: nat, alpha: real): (r: (seq<Node>, nat))
    requires Ready(f, nodes) && i <= |f.links|
    ensures SamePlaces(nodes, r.0)
    ensures forall j | 0 <= j < |nodes| && !Touched(f.links, i, j) :: r.0[j] == nodes[j]
    ensures r.1 >= k
    decreases |f.links| - i
  {
    if i == |f.links| then (nodes, k)
    else
      var step := LinkStep(m, rnd, k, f, nodes, i, alpha);
      assert Ready(f, step.0);
      var rest := LinkPass(m, rnd, step.1, f, step.0, i + 1, alpha);
      SamePlacesTrans(nodes, step.0, rest.0);
      UntouchedKept(f.links, i, nodes, step.0, rest.0);
      rest
  }

  /** A node that no link from `i` on touches keeps its entry through link
      `i` and through the links after it. */
  lemma UntouchedKept(links: seq<Link>, i: nat, a: seq<Node>, b: seq<Node>, c: seq<Node>)
    requires i < |links| && |a| == |b| == |c|
    requires forall j | 0 <= j < |a| && j != links[i].source && j != links[i].target :: b[j] == a[j]
    requires forall j | 0 <= j < |b| && !Touched(links, i + 1, j) :: c[j] == b[j]
    ensures forall j | 0 <= j < |a| && !Touched(links, i, j) :: c[j] == a[j]
  {
    forall j | 0 <= j < |a| && !Touched(links, i, j)
      ensures c[j] == a[j]
    {
      assert links[i].source != j && links[i].target != j;
      assert !Touched(links, i + 1, j);
    }
  }

  /** Node position `j` is an end of some link from position `i` on. */
  predicate Touched(links: seq<Link>, i: nat, j: nat) {
    exists q | i <= q < |links| :: links[q].source == j || links[q].target == j
  }

  /** The whole force. Nodes without links keep their velocities. */
  function LinkForceApply(m: Maths, rnd: Random, k: nat, f: LinkForce, nodes: seq<Node>, alpha: real): (r: (seq<Node>, nat))
    requires Ready(f, nodes)
    ensures SamePlaces(nodes, r.0)
    ensures forall j | 0 <= j < |nodes| && !Touched(f.links, 0, j) :: r.0[j] == nodes[j]
  {
    LinkPass(m, rnd, k, f, nodes, 0, alpha)
  }

  // ---------------------------------------------------------------------
  // The source's coincidence test

  /** One link as the source computes it: a component is jiggled only
      when it is NaN, which a difference of finite positions never is. A
      look-ahead vector of length zero makes the factor 0/0, so the
      velocities of both ends become NaN (`None`). */
  function LinkStepAsWritten(m: Maths, f: LinkForce, nodes: seq<Node>, i: nat, alpha: real): (r: Option<seq<Node>>)
    requires Ready(f, nodes) && i < |f.links|
    ensures r.None? <==> LookAhead(nodes, f.links[i]) == (0.0, 0.0)
  {
    var l := f.links[i];
    var v := LookAhead(nodes, l);
    if v.0 == 0.0 && v.1 == 0.0 then None
    else if v.0 != 0.0 then
      var g := Spring(m, v.0, v.1, f.distances[i], alpha, f.strengths[i]);
      Some(Apply(nodes, l, v.0, v.1, g, f.bias[i]))
    else
      var g := Spring(m, v.1, v.0, f.distances[i], alpha, f.strengths[i]);
      Some(Apply(nodes, l, v.0, v.1, g, f.bias[i]))
  }

  /** Where neither component is zero the two agree, and no draw is
      consumed. */
  lemma LinkStepAgrees(m: Maths, rnd: Random, k: nat, f: LinkForce, nodes: seq<Node>, i: nat, alpha: real)
    requires Ready(f, nodes) && i < |f.links|
    requires var v := LookAhead(nodes, f.links[i]); v.0 != 0.0 && v.1 != 0.0
    ensures LinkStepAsWritten(m, f, nodes, i, alpha) == Some(LinkStep(m, rnd, k, f, nodes, i, alpha).0)
    ensures LinkStep(m, rnd, k, f, nodes, i, alpha).1 == k
  {
    LinkStepPlain(m, rnd, k, f, nodes, i, alpha);
  }

  /** Two linked nodes whose look-ahead positions coincide: the source's
      arithmetic fails, while the jiggled step is defined. */
  lemma CoincidentEnds(m: Maths, rnd: Random, alpha: real)
    ensures var n := Node(0, 1.0, 1.0, 0.0, 0.0, None, None);
      var f := LinkForce([Link(0, 0, 1)], [1, 1], [0.5], [1.0], [30.0]);
      && Ready(f, [n, n])
      && LinkStepAsWritten(m, f, [n, n], 0, alpha).None?
      && |LinkStep(m, rnd, 0, f, [n, n], 0, alpha).0| == 2
  {
    var n := Node(0, 1.0, 1.0, 0.0, 0.0, None, None);
    var f := LinkForce([Link(0, 0, 1)], [1, 1], [0.5], [1.0], [30.0]);
    assert Ready(f, [n, n]);
    assert LookAhead([n, n], f.links[0]) == (0.0, 0.0);
  }
}
