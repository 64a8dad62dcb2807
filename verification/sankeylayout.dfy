/** The topological part of the Sankey layout on a wired graph: node
    depths and heights (computeNodeDepths, computeNodeHeights), the layer
    count and each node's layer (computeNodeLayers with the Align rules),
    and the stacking of links along their nodes (computeLinkBreadths). */
module SankeyLayout {
  import opened Wrappers
  import opened Sankeys
  import Layering

  /** The node at the far end of each listed link: for the outgoing lists
      (`Source`) the targets, for the incoming lists the sources. */
  function Adjacent<I>(g: Graph<I>, e: End): (r: Layering.Adj)
    requires Wired(g)
    ensures |r| == |g.nodes| && Layering.Closed(r)
    ensures forall u :: 0 <= u < |r| ==> r[u] == FarEnds(g, u, e)
  {
    seq(|g.nodes|, u requires 0 <= u < |g.nodes| => FarEnds(g, u, e))
  }

  /** The far ends of node `u`'s links on side `e`, in list order. */
  function FarEnds<I>(g: Graph<I>, u: nat, e: End): (r: seq<nat>)
    requires Wired(g) && u < |g.nodes|
    ensures |r| == |ListOf(g.nodes[u], e)|
    ensures forall k :: 0 <= k < |r| ==> (r[k] < |g.nodes| && ListOf(g.nodes[u], e)[k] < |g.links|
      && Some(r[k]) == EndOf(g.links[ListOf(g.nodes[u], e)[k]], Far(e)))
  {
    var ls := ListOf(g.nodes[u], e);
    WiredList(g, u, e);
    seq(|ls|, k requires 0 <= k < |ls| => EndOf(g.links[ls[k]], Far(e)).value)
  }

  function Far(e: End): End {
    if e == Source then Target else Source
  }

  /** The links, node to node. */
  function Outs<I>(g: Graph<I>): Layering.Adj
    requires Wired(g)
  {
    Adjacent(g, Source)
  }

  /** The links reversed. */
  function Ins<I>(g: Graph<I>): Layering.Adj
    requires Wired(g)
  {
    Adjacent(g, Target)
  }

  /** Some link runs from node `u` to node `v`. */
  ghost predicate Arc<I>(g: Graph<I>, u: nat, v: nat) {
    exists l :: 0 <= l < |g.links| && g.links[l].source == Some(u) && g.links[l].target == Some(v)
  }

  /** Some link has end `e` at `u` and its other end at `w`. */
  ghost predicate LinkedOn<I>(g: Graph<I>, u: nat, e: End, w: nat) {
    exists l :: 0 <= l < |g.links| && EndOf(g.links[l], e) == Some(u) && EndOf(g.links[l], Far(e)) == Some(w)
  }

  /** `w` is a far end of `u`'s list on side `e` exactly when some link
      joins them that way. */
  lemma ListedArc<I>(g: Graph<I>, u: nat, e: End, w: nat)
    requires Wired(g) && u < |g.nodes|
    ensures w in FarEnds(g, u, e) <==> LinkedOn(g, u, e, w)
  {
    var ls := ListOf(g.nodes[u], e);
    var fe := FarEnds(g, u, e);
    WiredList(g, u, e);
    if w in fe {
      var k :| 0 <= k < |fe| && fe[k] == w;
      assert EndOf(g.links[ls[k]], e) == Some(u) && EndOf(g.links[ls[k]], Far(e)) == Some(w);
    }
    if LinkedOn(g, u, e, w) {
      var l :| 0 <= l < |g.links| && EndOf(g.links[l], e) == Some(u) && EndOf(g.links[l], Far(e)) == Some(w);
      assert l in Select(g.links, u, |g.links|, e);
      assert l in multiset(ls);
      var k :| 0 <= k < |ls| && ls[k] == l;
      assert fe[k] == w;
    }
  }

  /** The adjacency read off the lists is the link relation, both ways. */
  lemma AdjacentArcs<I>(g: Graph<I>, u: nat, v: nat)
    requires Wired(g) && u < |g.nodes| && v < |g.nodes|
    ensures v in Outs(g)[u] <==> Arc(g, u, v)
    ensures u in Ins(g)[v] <==> Arc(g, u, v)
  {
    ListedArc(g, u, Source, v);
    ListedArc(g, v, Target, u);
    assert Arc(g, u, v) <==> LinkedOn(g, u, Source, v);
    assert Arc(g, u, v) <==> LinkedOn(g, v, Target, u);
  }

  lemma OutsInsConverse<I>(g: Graph<I>)
    requires Wired(g)
    ensures Layering.Converse(Outs(g), Ins(g))
  {
    forall u: nat, v: nat | u < |g.nodes| && v < |g.nodes|
      ensures v in Outs(g)[u] <==> u in Ins(g)[v]
    {
      AdjacentArcs(g, u, v);
    }
  }

  /** Some chain of links leads from a node back to itself. */
  ghost predicate Circular<I>(g: Graph<I>)
    requires Wired(g)
  {
    Layering.Cyclic(Outs(g))
  }

  /** `r` is `g` with new depths, heights or layers only. */
  ghost predicate SameWiring<I>(g: Graph<I>, r: Graph<I>) {
    r.links == g.links && |r.nodes| == |g.nodes|
    && forall u :: 0 <= u < |g.nodes| ==>
      r.nodes[u].index == g.nodes[u].index
      && r.nodes[u].sourceLinks == g.nodes[u].sourceLinks
      && r.nodes[u].targetLinks == g.nodes[u].targetLinks
  }

  lemma SameWiringKeeps<I>(g: Graph<I>, r: Graph<I>)
    requires Wired(g) && SameWiring(g, r)
    ensures Wired(r) && Outs(r) == Outs(g) && Ins(r) == Ins(g)
  {
    assert Wired(r);
    forall e: End
      ensures Adjacent(r, e) == Adjacent(g, e)
    {
      forall u | 0 <= u < |g.nodes|
        ensures Adjacent(r, e)[u] == Adjacent(g, e)[u]
      {
        assert ListOf(r.nodes[u], e) == ListOf(g.nodes[u], e);
      }
    }
  }

  /** `g` with node `u`'s depth set to `d[u]`. */
  function WithDepths<I>(g: Graph<I>, d: seq<int>): (r: Graph<I>)
    requires Wired(g) && |d| == |g.nodes|
    ensures SameWiring(g, r) && Wired(r)
    ensures forall u :: 0 <= u < |g.nodes| ==> r.nodes[u] == g.nodes[u].(depth := d[u])
  {
    var r := g.(nodes := seq(|g.nodes|, u requires 0 <= u < |g.nodes| => g.nodes[u].(depth := d[u])));
    SameWiringKeeps(g, r);
    r
  }

  /** `g` with node `u`'s height set to `h[u]`. */
  function WithHeights<I>(g: Graph<I>, h: seq<int>): (r: Graph<I>)
    requires Wired(g) && |h| == |g.nodes|
    ensures SameWiring(g, r) && Wired(r)
    ensures forall u :: 0 <= u < |g.nodes| ==> r.nodes[u] == g.nodes[u].(height := h[u])
  {
    var r := g.(nodes := seq(|g.nodes|, u requires 0 <= u < |g.nodes| => g.nodes[u].(height := h[u])));
    SameWiringKeeps(g, r);
    r
  }

  /** The depth loop: rounds over the outgoing links. */
  function ComputeNodeDepths<I>(g: Graph<I>): (r: Result<Graph<I>, string>)
    requires Wired(g)
    ensures r.Ok? <==> !Circular(g)
    ensures r.Ok? ==> SameWiring(g, r.value) && Wired(r.value)
    ensures r.Ok? ==> forall u :: 0 <= u < |g.nodes| ==>
      r.value.nodes[u] == g.nodes[u].(depth := r.value.nodes[u].depth)
      && r.value.nodes[u].depth >= 0
      && Layering.LongestTo(Outs(g), u, r.value.nodes[u].depth)
  {
    var adj := Outs(g);
    var prior := seq(|g.nodes|, u requires 0 <= u < |g.nodes| => g.nodes[u].depth);
    Layering.LayersAreLongestWalks(adj, prior);
    Layering.LayersFailOnCycles(adj, prior);
    match Layering.Layers(adj, prior)
    case Err(e) => Err(e)
    case Ok(d) =>
      Ok(WithDepths(g, d))
  }

  /** The height loop: the same rounds over the incoming links. */
  function ComputeNodeHeights<I>(g: Graph<I>): (r: Result<Graph<I>, string>)
    requires Wired(g)
    ensures r.Ok? <==> !Circular(g)
    ensures r.Ok? ==> SameWiring(g, r.value) && Wired(r.value)
    ensures r.Ok? ==> forall u :: 0 <= u < |g.nodes| ==>
      r.value.nodes[u] == g.nodes[u].(height := r.value.nodes[u].height)
      && r.value.nodes[u].height >= 0
      && Layering.LongestFrom(Outs(g), u, r.value.nodes[u].height)
  {
    var adj := Ins(g);
    var prior := seq(|g.nodes|, u requires 0 <= u < |g.nodes| => g.nodes[u].height);
    OutsInsConverse(g);
    Layering.ConverseLayers(Outs(g), adj, prior);
    match Layering.Layers(adj, prior)
    case Err(e) => Err(e)
    case Ok(h) =>
      Ok(WithHeights(g, h))
  }

  /** Depths and heights in place: each node's depth is its longest chain
      of links in, its height its longest chain of links out. */
  ghost predicate Layered<I>(g: Graph<I>) {
    Wired(g)
    && forall u :: 0 <= u < |g.nodes| ==>
      g.nodes[u].depth >= 0 && Layering.LongestTo(Outs(g), u, g.nodes[u].depth)
      && g.nodes[u].height >= 0 && Layering.LongestFrom(Outs(g), u, g.nodes[u].height)
  }

  /** Depths then heights, as the layout runs them: both fail exactly on
      a cycle, and together they leave the graph layered. */
  lemma DepthsThenHeights<I>(g: Graph<I>)
    requires Wired(g)
    ensures ComputeNodeDepths(g).Ok? <==> !Circular(g)
    ensures ComputeNodeDepths(g).Ok? ==>
      ComputeNodeHeights(ComputeNodeDepths(g).value).Ok?
      && Layered(ComputeNodeHeights(ComputeNodeDepths(g).value).value)
  {
    if ComputeNodeDepths(g).Ok? {
      var d := ComputeNodeDepths(g).value;
      SameWiringKeeps(g, d);
      var h := ComputeNodeHeights(d).value;
      SameWiringKeeps(d, h);
      forall u | 0 <= u < |g.nodes|
        ensures h.nodes[u].depth == d.nodes[u].depth
      {
        assert h.nodes[u] == d.nodes[u].(height := h.nodes[u].height);
      }
    }
  }

  // computeNodeLayers

  /** `mapToInt(depth).max().orElse(0)`. */
  function MaxDepth<I>(nodes: seq<Node<I>>): (r: int)
    ensures forall u :: 0 <= u < |nodes| ==> nodes[u].depth <= r
    ensures |nodes| == 0 ==> r == 0
    ensures |nodes| > 0 ==> exists u :: 0 <= u < |nodes| && nodes[u].depth == r
  {
    if |nodes| == 0 then 0
    else if |nodes| == 1 then nodes[0].depth
    else
      var m := MaxDepth(nodes[1..]);
      assert forall u :: 1 <= u < |nodes| ==> nodes[u] == nodes[1..][u - 1];
      if nodes[0].depth >= m then nodes[0].depth else m
  }

  function LayerCount<I>(g: Graph<I>): int {
    MaxDepth(g.nodes) + 1
  }

  /** The four Align rules. */
  datatype Alignment = Left | Right | Justify | Center

  /** The smallest depth among the targets of the listed links. */
  function NearestTarget<I>(g: Graph<I>, ls: seq<nat>): (r: int)
    requires ls != []
    requires forall k :: 0 <= k < |ls| ==>
      ls[k] < |g.links| && g.links[ls[k]].target.Some? && g.links[ls[k]].target.value < |g.nodes|
    ensures exists k :: 0 <= k < |ls| && r == g.nodes[g.links[ls[k]].target.value].depth
    ensures forall k :: 0 <= k < |ls| ==> r <= g.nodes[g.links[ls[k]].target.value].depth
  {
    var here := g.nodes[g.links[ls[0]].target.value].depth;
    if |ls| == 1 then here
    else
      var rest := NearestTarget(g, ls[1..]);
      assert forall k :: 1 <= k < |ls| ==> ls[k] == ls[1..][k - 1];
      if here <= rest then here else rest
  }

  /** The column the alignment asks for, before clamping. */
  function Align<I>(a: Alignment, g: Graph<I>, u: nat, n: int): int
    requires Wired(g) && u < |g.nodes|
  {
    var x := g.nodes[u];
    match a
    case Left => x.depth
    case Right => n - 1 - x.height
    case Justify => if |x.sourceLinks| > 0 then x.depth else n - 1
    case Center =>
      if |x.targetLinks| > 0 then x.depth
      else if |x.sourceLinks| > 0 then NearestTargetOf(g, u) - 1
      else 0
  }

  /** `Math.max(0, Math.min(n - 1, v))`. */
  function Clamp(v: int, n: int): (r: int)
    ensures n >= 1 ==> 0 <= r <= n - 1
    ensures n >= 1 && 0 <= v <= n - 1 ==> r == v
    ensures n >= 1 && v < 0 ==> r == 0
    ensures n >= 1 && v > n - 1 ==> r == n - 1
  {
    var low := if n - 1 <= v then n - 1 else v;
    if 0 >= low then 0 else low
  }

  /** The layer loop: every node gets the clamped column of its
      alignment; the count of layers is returned with the graph. */
  function ComputeNodeLayers<I>(g: Graph<I>, a: Alignment): (r: (Graph<I>, int))
    requires Wired(g)
    ensures r.1 == LayerCount(g) && SameWiring(g, r.0)
    ensures forall u :: 0 <= u < |g.nodes| ==> r.0.nodes[u] == g.nodes[u].(layer := r.0.nodes[u].layer)
    ensures MaxDepth(g.nodes) >= 0 ==> r.1 >= 1 && forall u :: 0 <= u < |g.nodes| ==> 0 <= r.0.nodes[u].layer < r.1
    ensures forall u :: 0 <= u < |g.nodes| ==> r.0.nodes[u].layer == Clamp(Align(a, g, u, r.1), r.1)
  {
    var n := LayerCount(g);
    (g.(nodes := seq(|g.nodes|, u requires 0 <= u < |g.nodes| => g.nodes[u].(layer := Clamp(Align(a, g, u, n), n)))), n)
  }

  /** A node's height is at most the largest depth: its longest chain
      out ends at a node whose depth is at least that long. */
  lemma HeightBelowMaxDepth<I>(g: Graph<I>, u: nat)
    requires Layered(g) && u < |g.nodes|
    ensures g.nodes[u].height <= MaxDepth(g.nodes)
  {
    var h := g.nodes[u].height;
    var adj := Outs(g);
    assert Layering.Starts(adj, u, h);
    var w :| Layering.Walk(adj, w) && |w| == h + 1 && w[0] == u;
    var v := w[h];
    assert Layering.Ends(adj, v, h);
    assert !(h > g.nodes[v].depth);
  }

  /** A node with an incoming link has depth at least one. */
  lemma EntryDepth<I>(g: Graph<I>, l: nat)
    requires Layered(g) && l < |g.links|
    ensures g.nodes[g.links[l].target.value].depth >= 1
  {
    var u := g.links[l].source.value;
    var v := g.links[l].target.value;
    var adj := Outs(g);
    assert Attached(|g.nodes|, g.links[l]);
    assert Arc(g, u, v);
    AdjacentArcs(g, u, v);
    Layering.StepEnds(adj, u, v);
    Layering.LongestBounds(adj, v, g.nodes[v].depth, 1);
  }

  /** On a layered graph the depth of every node is a column: `Left`
      puts each node in the column of its depth. */
  lemma LeftLayer<I>(g: Graph<I>, u: nat)
    requires Layered(g) && u < |g.nodes|
    ensures ComputeNodeLayers(g, Left).0.nodes[u].layer == g.nodes[u].depth
  {
    assert 0 <= g.nodes[u].depth <= MaxDepth(g.nodes);
  }

  /** `Right` counts a node's height back from the last column; no
      height reaches past the first column. */
  lemma RightLayer<I>(g: Graph<I>, u: nat)
    requires Layered(g) && u < |g.nodes|
    ensures var r := ComputeNodeLayers(g, Right);
      r.0.nodes[u].layer == r.1 - 1 - g.nodes[u].height
  {
    HeightBelowMaxDepth(g, u);
  }

  /** `Justify` keeps a node with outgoing links at its depth and moves
      every sink to the last column. */
  lemma JustifyLayer<I>(g: Graph<I>, u: nat)
    requires Layered(g) && u < |g.nodes|
    ensures var r := ComputeNodeLayers(g, Justify);
      r.0.nodes[u].layer == if |g.nodes[u].sourceLinks| > 0 then g.nodes[u].depth else r.1 - 1
  {
    assert 0 <= g.nodes[u].depth <= MaxDepth(g.nodes);
    JustifyClamped(g, u, LayerCount(g));
  }

  /** The Justify rule once the node's depth is known to be one of the `n`
      columns. */
  lemma JustifyClamped<I>(g: Graph<I>, u: nat, n: int)
    requires Wired(g) && u < |g.nodes| && 0 <= g.nodes[u].depth < n
    ensures Clamp(Align(Justify, g, u, n), n) == if |g.nodes[u].sourceLinks| > 0 then g.nodes[u].depth else n - 1
  {
  }

  /** `Center` keeps a node with incoming links at its depth, puts a node
      with only outgoing links one column before its nearest target, and
      an isolated node in the first column. */
  lemma CenterLayer<I>(g: Graph<I>, u: nat)
    requires Layered(g) && u < |g.nodes|
    ensures var x := g.nodes[u]; var layer := ComputeNodeLayers(g, Center).0.nodes[u].layer;
      && (|x.targetLinks| > 0 ==> layer == x.depth)
      && (|x.targetLinks| == 0 && |x.sourceLinks| > 0 ==> layer == NearestTargetOf(g, u) - 1)
      && (|x.targetLinks| == 0 && |x.sourceLinks| == 0 ==> layer == 0)
  {
    var x := g.nodes[u];
    assert 0 <= x.depth <= MaxDepth(g.nodes);
    if |x.targetLinks| == 0 && |x.sourceLinks| > 0 {
      NearestTargetInRange(g, u);
    }
    CenterClamped(g, u, LayerCount(g));
  }

  /** The Center rule once its columns are known to be among the `n`. */
  lemma CenterClamped<I>(g: Graph<I>, u: nat, n: int)
    requires Wired(g) && u < |g.nodes| && 0 <= g.nodes[u].depth < n
    requires |g.nodes[u].targetLinks| == 0 && |g.nodes[u].sourceLinks| > 0 ==>
      1 <= NearestTargetOf(g, u) < n
    ensures var x := g.nodes[u]; var layer := Clamp(Align(Center, g, u, n), n);
      && (|x.targetLinks| > 0 ==> layer == x.depth)
      && (|x.targetLinks| == 0 && |x.sourceLinks| > 0 ==> layer == NearestTargetOf(g, u) - 1)
      && (|x.targetLinks| == 0 && |x.sourceLinks| == 0 ==> layer == 0)
  {
  }

  /** Targets sit at depth one or more, so the column before the nearest
      one exists. */
  lemma NearestTargetInRange<I>(g: Graph<I>, u: nat)
    requires Layered(g) && u < |g.nodes| && |g.nodes[u].sourceLinks| > 0
    ensures 1 <= NearestTargetOf(g, u) <= MaxDepth(g.nodes)
  {
    var x := g.nodes[u];
    var m := NearestTargetOf(g, u);
    WiredEntries(g);
    assert forall k :: 0 <= k < |x.sourceLinks| ==> x.sourceLinks[k] == ListOf(x, Source)[k];
    var k :| 0 <= k < |x.sourceLinks| && m == g.nodes[g.links[x.sourceLinks[k]].target.value].depth;
    EntryDepth(g, x.sourceLinks[k]);
  }

  /** The smallest depth among the targets of node `u`'s outgoing links. */
  function NearestTargetOf<I>(g: Graph<I>, u: nat): int
    requires Wired(g) && u < |g.nodes| && |g.nodes[u].sourceLinks| > 0
  {
    var x := g.nodes[u];
    WiredEntries(g);
    assert forall k :: 0 <= k < |x.sourceLinks| ==> x.sourceLinks[k] == ListOf(x, Source)[k];
    NearestTarget(g, x.sourceLinks)
  }
}
