/** The Sankey graph and the first two steps of its layout: wiring the
    links into the nodes (computeNodeLinks) and the node values
    (computeNodeValues with NumberValueCalculator). A node is identified by
    its position in the node list and a link by its position in the link
    list; a link's resolved ends are node positions. */
module Sankeys {
  import opened Wrappers
  import HierarchyOps

  /** A node: its id, fixed value, the positions of its outgoing and
      incoming links, and the layout fields the later steps fill in. */
  datatype Node<I> = Node(
    id: I,
    fixedValue: Option<real>,
    index: int,
    sourceLinks: seq<nat>,
    targetLinks: seq<nat>,
    value: Option<real>,
    depth: int,
    height: int,
    layer: int,
    y0: real)

  /** A link: the keys of its ends (`None` for a `null` key), the resolved
      ends (node positions; `None` for `null`), its value and the layout
      fields. */
  datatype Link<I> = Link(
    sourceKey: Option<I>,
    targetKey: Option<I>,
    source: Option<nat>,
    target: Option<nat>,
    value: Option<real>,
    index: int,
    width: real,
    y0: real,
    y1: real)

  datatype Graph<I> = Graph(nodes: seq<Node<I>>, links: seq<Link<I>>)

  /** Which end of a link, and which of a node's two link lists. */
  datatype End = Source | Target

  function EndOf<I>(l: Link<I>, e: End): Option<nat> {
    if e == Source then l.source else l.target
  }

  function ListOf<I>(x: Node<I>, e: End): seq<nat> {
    if e == Source then x.sourceLinks else x.targetLinks
  }

  predicate Distinct<T(==)>(s: seq<T>) {
    forall i, j :: 0 <= i < j < |s| ==> s[i] != s[j]
  }

  // computeNodeLinks

  /** Every node gets its position as index and two empty link lists. */
  function Cleared<I>(nodes: seq<Node<I>>): (r: seq<Node<I>>)
    ensures |r| == |nodes|
    ensures forall u :: 0 <= u < |r| ==> r[u] == nodes[u].(index := u, sourceLinks := [], targetLinks := [])
  {
    seq(|nodes|, u requires 0 <= u < |nodes| => nodes[u].(index := u, sourceLinks := [], targetLinks := []))
  }

  function Keys<I>(nodes: seq<Node<I>>, id: Node<I> -> I): (r: seq<I>)
    ensures |r| == |nodes| && forall u :: 0 <= u < |r| ==> r[u] == id(nodes[u])
  {
    seq(|nodes|, u requires 0 <= u < |nodes| => id(nodes[u]))
  }

  /** The id map, built key by key; a key seen before throws, as
      Collectors.toMap does. */
  function ById<I(==)>(keys: seq<I>): (r: Result<map<I, nat>, string>)
    ensures r.Ok? <==> Distinct(keys)
    ensures r.Ok? ==> r.value.Keys == (set u | 0 <= u < |keys| :: keys[u])
    ensures r.Ok? ==> forall u :: 0 <= u < |keys| ==> r.value[keys[u]] == u
    decreases |keys|
  {
    if keys == [] then Ok(map[])
    else
      var front := keys[..|keys| - 1];
      var last := keys[|keys| - 1];
      assert keys == front + [last];
      match ById(front)
      case Err(e) => Err(e)
      case Ok(m) => if last in m then Err("duplicate key") else Ok(m[last := |keys| - 1])
  }

  /** A link end: the node its non-null key names, else the node the link
      already refers to. A key not in the map gives `null`. */
  function Resolve<I>(key: Option<I>, preset: Option<nat>, byId: map<I, nat>): Option<nat> {
    match key
    case Some(k) => if k in byId then Some(byId[k]) else None
    case None => preset
  }

  /** The links among the first `k` whose `e` end is node `u`, in link
      order. */
  function Select<I>(links: seq<Link<I>>, u: nat, k: nat, e: End): (r: seq<nat>)
    requires k <= |links|
    ensures forall i :: 0 <= i < |r| ==> r[i] < k
    ensures forall i, j :: 0 <= i < j < |r| ==> r[i] < r[j]
    ensures forall l: nat :: l in r <==> l < k && EndOf(links[l], e) == Some(u)
  {
    if k == 0 then []
    else Select(links, u, k - 1, e) + (if EndOf(links[k - 1], e) == Some(u) then [k - 1] else [])
  }

  lemma {:induction false} SelectSame<I>(a: seq<Link<I>>, b: seq<Link<I>>, u: nat, k: nat, e: End)
    requires k <= |a| && k <= |b|
    requires forall l :: 0 <= l < k ==> EndOf(a[l], e) == EndOf(b[l], e)
    ensures Select(a, u, k, e) == Select(b, u, k, e)
  {
    if k > 0 {
      SelectSame(a, b, u, k - 1, e);
    }
  }

  /** The node positions of both ends of `l`, when it has them. */
  predicate Attached<I>(n: nat, l: Link<I>) {
    l.source.Some? && l.source.value < n && l.target.Some? && l.target.value < n
  }

  /** Link `l` once the loop has passed it: its position as index and its
      ends resolved. */
  function Placed<I>(links: seq<Link<I>>, byId: map<I, nat>, l: nat): Link<I>
    requires l < |links|
  {
    links[l].(index := l,
              source := Resolve(links[l].sourceKey, links[l].source, byId),
              target := Resolve(links[l].targetKey, links[l].target, byId))
  }

  /** The appends of the loop on one side: each of the first `k` links,
      in order, appended to the list of the node at its `e` end. The two
      sides append to different lists, so running them one after the other
      builds the lists the interleaved loop builds. */
  function Gather<I>(links: seq<Link<I>>, n: nat, k: nat, e: End): (r: seq<seq<nat>>)
    requires k <= |links| && forall l :: 0 <= l < k ==> Attached(n, links[l])
    ensures |r| == n && forall u :: 0 <= u < n ==> r[u] == Select(links, u, k, e)
  {
    if k == 0 then seq(n, u requires 0 <= u < n => [])
    else
      var prev := Gather(links, n, k - 1, e);
      assert Attached(n, links[k - 1]);
      var v := if e == Source then links[k - 1].source.value else links[k - 1].target.value;
      prev[v := prev[v] + [k - 1]]
  }

  /** The wiring invariant: every link has its position as index and both
      ends in the graph; every node has its position as index and lists
      each link ending at it exactly once, on the matching side, and
      nothing else. */
  predicate Wired<I>(g: Graph<I>) {
    (forall l :: 0 <= l < |g.links| ==> g.links[l].index == l && Attached(|g.nodes|, g.links[l]))
    && forall u :: 0 <= u < |g.nodes| ==> (g.nodes[u].index == u
      && multiset(g.nodes[u].sourceLinks) == multiset(Select(g.links, u, |g.links|, Source))
      && multiset(g.nodes[u].targetLinks) == multiset(Select(g.links, u, |g.links|, Target)))
  }

  /** The wiring read entry by entry: a listed link is a link of the graph
      with the matching end at this node. */
  lemma WiredEntry<I>(g: Graph<I>, u: nat, e: End, k: nat)
    requires Wired(g) && u < |g.nodes| && k < |ListOf(g.nodes[u], e)|
    ensures ListOf(g.nodes[u], e)[k] < |g.links|
    ensures EndOf(g.links[ListOf(g.nodes[u], e)[k]], e) == Some(u)
  {
    var x := ListOf(g.nodes[u], e)[k];
    assert x in multiset(ListOf(g.nodes[u], e));
    assert x in Select(g.links, u, |g.links|, e);
  }

  lemma WiredEntries<I>(g: Graph<I>)
    requires Wired(g)
    ensures forall u, e, k :: 0 <= u < |g.nodes| && 0 <= k < |ListOf(g.nodes[u], e)| ==>
      ListOf(g.nodes[u], e)[k] < |g.links| && EndOf(g.links[ListOf(g.nodes[u], e)[k]], e) == Some(u)
  {
    forall u, e, k | 0 <= u < |g.nodes| && 0 <= k < |ListOf(g.nodes[u], e)|
      ensures ListOf(g.nodes[u], e)[k] < |g.links| && EndOf(g.links[ListOf(g.nodes[u], e)[k]], e) == Some(u)
    {
      WiredEntry(g, u, e, k);
    }
  }

  /** The links node `u` lists on side `e` are links of the graph, with
      both ends on nodes of the graph and end `e` at `u`. */
  lemma WiredList<I>(g: Graph<I>, u: nat, e: End)
    requires Wired(g) && u < |g.nodes|
    ensures var ls := ListOf(g.nodes[u], e);
      forall k :: 0 <= k < |ls| ==>
        ls[k] < |g.links| && Attached(|g.nodes|, g.links[ls[k]]) && EndOf(g.links[ls[k]], e) == Some(u)
  {
    var ls := ListOf(g.nodes[u], e);
    forall k | 0 <= k < |ls|
      ensures ls[k] < |g.links| && Attached(|g.nodes|, g.links[ls[k]]) && EndOf(g.links[ls[k]], e) == Some(u)
    {
      WiredEntry(g, u, e, k);
    }
  }

  /** A wired list holds no link twice. */
  lemma WiredDistinct<I>(g: Graph<I>, u: nat, e: End)
    requires Wired(g) && u < |g.nodes|
    ensures Distinct(ListOf(g.nodes[u], e))
  {
    var s := ListOf(g.nodes[u], e);
    var sel := Select(g.links, u, |g.links|, e);
    forall i, j | 0 <= i < j < |s|
      ensures s[i] != s[j]
    {
      if s[i] == s[j] {
        RepeatCounts(s, i, j);
        IncreasingOnce(sel, s[i]);
      }
    }
  }

  /** A value at two positions occurs at least twice. */
  lemma RepeatCounts<T>(s: seq<T>, i: nat, j: nat)
    requires i < j < |s| && s[i] == s[j]
    ensures multiset(s)[s[i]] >= 2
  {
    assert s == s[..j] + s[j..];
    assert s[i] in s[..j] && s[j] in s[j..];
  }

  lemma {:induction false} IncreasingOnce(s: seq<nat>, x: nat)
    requires forall i, j :: 0 <= i < j < |s| ==> s[i] < s[j]
    ensures multiset(s)[x] <= 1
  {
    if s != [] {
      assert s == [s[0]] + s[1..];
      IncreasingOnce(s[1..], x);
      if x == s[0] {
        assert x !in s[1..];
      }
    }
  }

  /** The link comparator lifted to link positions (an index outside the
      list compares equal to everything). */
  function LinkOrder<I>(links: seq<Link<I>>, cmp: (Link<I>, Link<I>) -> int): (nat, nat) -> int {
    (a: nat, b: nat) => if a < |links| && b < |links| then cmp(links[a], links[b]) else 0
  }

  /** List.sort with the link comparator on one link list. */
  function SortList<I>(links: seq<Link<I>>, s: seq<nat>, cmp: (Link<I>, Link<I>) -> int): (r: seq<nat>)
    ensures multiset(r) == multiset(s)
  {
    HierarchyOps.InsertionSort(s, LinkOrder(links, cmp))
  }

  /** The sign rule of a Java comparator, on the links of the graph. */
  predicate AntisymmetricOn<I>(links: seq<Link<I>>, cmp: (Link<I>, Link<I>) -> int) {
    forall i, j :: 0 <= i < |links| && 0 <= j < |links| ==>
      (cmp(links[i], links[j]) > 0 <==> cmp(links[j], links[i]) < 0)
  }

  /** A list of link positions in which no link compares above the next. */
  predicate SortedBy<I>(links: seq<Link<I>>, s: seq<nat>, cmp: (Link<I>, Link<I>) -> int) {
    forall k :: 0 <= k < |s| - 1 && s[k] < |links| && s[k + 1] < |links| ==>
      cmp(links[s[k]], links[s[k + 1]]) <= 0
  }

  /** The sorted list is ordered by `linkSort`, as `List.sort` leaves it. */
  lemma SortListOrders<I>(links: seq<Link<I>>, s: seq<nat>, cmp: (Link<I>, Link<I>) -> int)
    requires AntisymmetricOn(links, cmp)
    ensures SortedBy(links, SortList(links, s, cmp), cmp)
  {
    var order := LinkOrder(links, cmp);
    forall a: nat, b: nat ensures order(a, b) > 0 <==> order(b, a) < 0 {
      if a < |links| && b < |links| {
        assert order(a, b) == cmp(links[a], links[b]) && order(b, a) == cmp(links[b], links[a]);
      }
    }
    HierarchyOps.InsertionSortOrders(s, order);
    var r := SortList(links, s, cmp);
    forall k | 0 <= k < |r| - 1 && r[k] < |links| && r[k + 1] < |links|
      ensures cmp(links[r[k]], links[r[k + 1]]) <= 0
    {
      assert order(r[k], r[k + 1]) <= 0;
    }
  }

  /** Both link lists of every node ordered by the comparator. */
  predicate ListsSorted<I>(g: Graph<I>, cmp: (Link<I>, Link<I>) -> int) {
    forall u :: 0 <= u < |g.nodes| ==>
      SortedBy(g.links, g.nodes[u].sourceLinks, cmp) && SortedBy(g.links, g.nodes[u].targetLinks, cmp)
  }

  /** The optional last step: both link lists of every node sorted. */
  function SortLinks<I>(g: Graph<I>, cmp: (Link<I>, Link<I>) -> int): (r: Graph<I>)
    ensures r.links == g.links && |r.nodes| == |g.nodes|
    ensures forall u :: 0 <= u < |r.nodes| ==>
      r.nodes[u] == g.nodes[u].(sourceLinks := r.nodes[u].sourceLinks, targetLinks := r.nodes[u].targetLinks)
      && multiset(r.nodes[u].sourceLinks) == multiset(g.nodes[u].sourceLinks)
      && multiset(r.nodes[u].targetLinks) == multiset(g.nodes[u].targetLinks)
  {
    g.(nodes := seq(|g.nodes|, u requires 0 <= u < |g.nodes| =>
      g.nodes[u].(sourceLinks := SortList(g.links, g.nodes[u].sourceLinks, cmp),
                  targetLinks := SortList(g.links, g.nodes[u].targetLinks, cmp))))
  }

  /** After the sort, both lists of every node are ordered by `linkSort`. */
  lemma SortLinksOrders<I>(g: Graph<I>, cmp: (Link<I>, Link<I>) -> int)
    requires AntisymmetricOn(g.links, cmp)
    ensures ListsSorted(SortLinks(g, cmp), cmp)
  {
    var r := SortLinks(g, cmp);
    forall u | 0 <= u < |r.nodes|
      ensures SortedBy(r.links, r.nodes[u].sourceLinks, cmp) && SortedBy(r.links, r.nodes[u].targetLinks, cmp)
    {
      SortListOrders(g.links, g.nodes[u].sourceLinks, cmp);
      SortListOrders(g.links, g.nodes[u].targetLinks, cmp);
    }
  }

  /** A link end that the wiring can resolve: a non-null key must be a
      node's key, a null key needs the link's own end to be a node. */
  predicate Resolves<I(==)>(keys: seq<I>, key: Option<I>, preset: Option<nat>) {
    if key.Some? then key.value in keys else preset.Some? && preset.value < |keys|
  }

  /** `r` is how that end resolved. */
  predicate ResolvedAs<I(==)>(keys: seq<I>, key: Option<I>, preset: Option<nat>, r: Option<nat>) {
    r.Some? && r.value < |keys| && if key.Some? then keys[r.value] == key.value else r == preset
  }

  /** Every link end resolves. */
  predicate LinksResolve<I(==)>(keys: seq<I>, links: seq<Link<I>>) {
    forall l :: 0 <= l < |links| ==>
      Resolves(keys, links[l].sourceKey, links[l].source) && Resolves(keys, links[l].targetKey, links[l].target)
  }

  /** `r` is `g` after the wiring: every link keeps its keys, value and
      layout fields and has its position as index and its ends resolved;
      every node keeps its own fields and has its position as index. */
  predicate Rewired<I(==)>(g: Graph<I>, keys: seq<I>, r: Graph<I>) {
    |r.nodes| == |g.nodes| && |r.links| == |g.links|
    && (forall l :: 0 <= l < |g.links| ==>
          r.links[l] == g.links[l].(index := l, source := r.links[l].source, target := r.links[l].target)
          && ResolvedAs(keys, g.links[l].sourceKey, g.links[l].source, r.links[l].source)
          && ResolvedAs(keys, g.links[l].targetKey, g.links[l].target, r.links[l].target))
    && forall u :: 0 <= u < |g.nodes| ==>
      r.nodes[u] == g.nodes[u].(index := u, sourceLinks := r.nodes[u].sourceLinks, targetLinks := r.nodes[u].targetLinks)
  }

  /** Each link list in link order. */
  predicate InLinkOrder<I>(g: Graph<I>) {
    forall u :: 0 <= u < |g.nodes| ==>
      g.nodes[u].sourceLinks == Select(g.links, u, |g.links|, Source)
      && g.nodes[u].targetLinks == Select(g.links, u, |g.links|, Target)
  }

  /** The nodes with their gathered lists. */
  function Build<I>(nodes: seq<Node<I>>, links: seq<Link<I>>): (r: Graph<I>)
    requires forall l :: 0 <= l < |links| ==> Attached(|nodes|, links[l])
  {
    var outs := Gather(links, |nodes|, |links|, Source);
    var ins := Gather(links, |nodes|, |links|, Target);
    Graph(seq(|nodes|, u requires 0 <= u < |nodes| =>
      nodes[u].(sourceLinks := outs[u], targetLinks := ins[u])), links)
  }

  /** computeNodeLinks: it succeeds exactly when the node keys are
      distinct and every link end resolves; the result is wired, with no
      comparator each list is in link order, and with one that obeys the
      comparator sign rule each list is ordered by it. */
  function ComputeNodeLinks<I(==)>(g: Graph<I>, id: Node<I> -> I, linkSort: Option<(Link<I>, Link<I>) -> int>): (r: Result<Graph<I>, string>)
    ensures r.Ok? <==> Distinct(Keys(Cleared(g.nodes), id)) && LinksResolve(Keys(Cleared(g.nodes), id), g.links)
    ensures r.Ok? ==> Wired(r.value) && Rewired(g, Keys(Cleared(g.nodes), id), r.value)
    ensures r.Ok? && linkSort.None? ==> InLinkOrder(r.value)
    ensures r.Ok? && linkSort.Some? && AntisymmetricOn(r.value.links, linkSort.value) ==> ListsSorted(r.value, linkSort.value)
  {
    var nodes := Cleared(g.nodes);
    var keys := Keys(nodes, id);
    match ById(keys)
    case Err(e) => Err(e)
    case Ok(byId) =>
      var links := seq(|g.links|, l requires 0 <= l < |g.links| => Placed(g.links, byId, l));
      WireSucceeds(keys, g.links, byId);
      ResolveAll(g, keys, byId, links);
      if exists l :: 0 <= l < |links| && !Attached(|nodes|, links[l]) then
        Err("null node")
      else
        var wired := Build(nodes, links);
        BuildWires(g, keys, byId, nodes, links);
        match linkSort
        case None => Ok(wired)
        case Some(cmp) =>
          SortRewires(g, keys, wired, cmp);
          assert AntisymmetricOn(wired.links, cmp) ==> ListsSorted(SortLinks(wired, cmp), cmp) by {
            if AntisymmetricOn(wired.links, cmp) {
              SortLinksOrders(wired, cmp);
            }
          }
          Ok(SortLinks(wired, cmp))
  }

  lemma ResolveAll<I>(g: Graph<I>, keys: seq<I>, byId: map<I, nat>, links: seq<Link<I>>)
    requires links == seq(|g.links|, l requires 0 <= l < |g.links| => Placed(g.links, byId, l))
    requires forall l :: 0 <= l < |g.links| ==>
      (Attached(|keys|, Placed(g.links, byId, l)) <==>
        Resolves(keys, g.links[l].sourceKey, g.links[l].source) && Resolves(keys, g.links[l].targetKey, g.links[l].target))
    ensures LinksResolve(keys, g.links) <==> forall l :: 0 <= l < |links| ==> Attached(|keys|, links[l])
  {
    if !LinksResolve(keys, g.links) {
      var l :| 0 <= l < |g.links| && !(Resolves(keys, g.links[l].sourceKey, g.links[l].source)
        && Resolves(keys, g.links[l].targetKey, g.links[l].target));
      assert !Attached(|keys|, links[l]);
    }
  }

  lemma BuildWires<I>(g: Graph<I>, keys: seq<I>, byId: map<I, nat>, nodes: seq<Node<I>>, links: seq<Link<I>>)
    requires |keys| == |g.nodes| && nodes == Cleared(g.nodes)
    requires links == seq(|g.links|, l requires 0 <= l < |g.links| => Placed(g.links, byId, l))
    requires forall l :: 0 <= l < |links| ==> Attached(|nodes|, links[l])
    requires forall l :: 0 <= l < |g.links| ==>
      (Resolves(keys, g.links[l].sourceKey, g.links[l].source) ==>
        ResolvedAs(keys, g.links[l].sourceKey, g.links[l].source, Placed(g.links, byId, l).source))
      && (Resolves(keys, g.links[l].targetKey, g.links[l].target) ==>
        ResolvedAs(keys, g.links[l].targetKey, g.links[l].target, Placed(g.links, byId, l).target))
    requires forall l :: 0 <= l < |g.links| ==>
      (Attached(|keys|, Placed(g.links, byId, l)) <==>
        Resolves(keys, g.links[l].sourceKey, g.links[l].source) && Resolves(keys, g.links[l].targetKey, g.links[l].target))
    ensures Wired(Build(nodes, links)) && Rewired(g, keys, Build(nodes, links)) && InLinkOrder(Build(nodes, links))
  {
    var r := Build(nodes, links);
    forall l | 0 <= l < |g.links|
      ensures r.links[l] == g.links[l].(index := l, source := r.links[l].source, target := r.links[l].target)
      ensures ResolvedAs(keys, g.links[l].sourceKey, g.links[l].source, r.links[l].source)
      ensures ResolvedAs(keys, g.links[l].targetKey, g.links[l].target, r.links[l].target)
    {
      assert r.links[l] == Placed(g.links, byId, l);
      assert Attached(|keys|, Placed(g.links, byId, l));
    }
    forall u | 0 <= u < |g.nodes|
      ensures r.nodes[u] == g.nodes[u].(index := u, sourceLinks := r.nodes[u].sourceLinks, targetLinks := r.nodes[u].targetLinks)
      ensures r.nodes[u].sourceLinks == Select(r.links, u, |r.links|, Source)
      ensures r.nodes[u].targetLinks == Select(r.links, u, |r.links|, Target)
    {
    }
  }

  lemma SortRewires<I>(g: Graph<I>, keys: seq<I>, w: Graph<I>, cmp: (Link<I>, Link<I>) -> int)
    requires Wired(w) && Rewired(g, keys, w)
    ensures Wired(SortLinks(w, cmp)) && Rewired(g, keys, SortLinks(w, cmp))
  {
    var r := SortLinks(w, cmp);
    forall u | 0 <= u < |g.nodes|
      ensures r.nodes[u] == g.nodes[u].(index := u, sourceLinks := r.nodes[u].sourceLinks, targetLinks := r.nodes[u].targetLinks)
    {
      assert r.nodes[u] == w.nodes[u].(sourceLinks := r.nodes[u].sourceLinks, targetLinks := r.nodes[u].targetLinks);
    }
  }

  lemma WireSucceeds<I>(keys: seq<I>, links: seq<Link<I>>, byId: map<I, nat>)
    requires byId.Keys == (set u | 0 <= u < |keys| :: keys[u])
    requires forall u :: 0 <= u < |keys| ==> byId[keys[u]] == u
    ensures forall l :: 0 <= l < |links| ==>
      (Attached(|keys|, Placed(links, byId, l)) <==>
        Resolves(keys, links[l].sourceKey, links[l].source) && Resolves(keys, links[l].targetKey, links[l].target))
    ensures forall l :: 0 <= l < |links| ==>
      (Resolves(keys, links[l].sourceKey, links[l].source) ==>
        ResolvedAs(keys, links[l].sourceKey, links[l].source, Placed(links, byId, l).source))
      && (Resolves(keys, links[l].targetKey, links[l].target) ==>
        ResolvedAs(keys, links[l].targetKey, links[l].target, Placed(links, byId, l).target))
  {
    forall l | 0 <= l < |links|
      ensures Attached(|keys|, Placed(links, byId, l)) <==>
        Resolves(keys, links[l].sourceKey, links[l].source) && Resolves(keys, links[l].targetKey, links[l].target)
      ensures Resolves(keys, links[l].sourceKey, links[l].source) ==>
        ResolvedAs(keys, links[l].sourceKey, links[l].source, Placed(links, byId, l).source)
      ensures Resolves(keys, links[l].targetKey, links[l].target) ==>
        ResolvedAs(keys, links[l].targetKey, links[l].target, Placed(links, byId, l).target)
    {
      ResolveMeaning(keys, byId, links[l].sourceKey, links[l].source);
      ResolveMeaning(keys, byId, links[l].targetKey, links[l].target);
    }
  }

  /** Resolving through the id map finds a node exactly when the end
      resolves, and then finds the node the key names. */
  lemma ResolveMeaning<I>(keys: seq<I>, byId: map<I, nat>, key: Option<I>, preset: Option<nat>)
    requires byId.Keys == (set u | 0 <= u < |keys| :: keys[u])
    requires forall u :: 0 <= u < |keys| ==> byId[keys[u]] == u
    ensures var r := Resolve(key, preset, byId);
      (r.Some? && r.value < |keys| <==> Resolves(keys, key, preset))
      && (Resolves(keys, key, preset) ==> ResolvedAs(keys, key, preset, r))
  {
    if key.Some? && key.value in keys {
      var u :| 0 <= u < |keys| && keys[u] == key.value;
      assert byId[key.value] == u;
    }
  }

  // computeNodeValues

  /** NumberValueCalculator.sum: `null` is the identity of the addition. */
  function Plus(a: Option<real>, b: Option<real>): (r: Option<real>)
    ensures r.None? <==> a.None? && b.None?
    ensures r.Some? ==> r.value == a.GetOr(0.0) + b.GetOr(0.0)
  {
    if a.None? then b else if b.None? then a else Some(a.value + b.value)
  }

  /** The accumulation of `reduce`: the running value combined with each
      further value in turn. */
  function Fold(acc: Option<real>, vs: seq<Option<real>>): Option<real>
    decreases |vs|
  {
    if vs == [] then acc else Fold(Plus(acc, vs[0]), vs[1..])
  }

  predicate AnyGiven(vs: seq<Option<real>>) {
    exists i :: 0 <= i < |vs| && vs[i].Some?
  }

  /** The sum of the non-null values. */
  function Given(vs: seq<Option<real>>): real {
    if vs == [] then 0.0 else vs[0].GetOr(0.0) + Given(vs[1..])
  }

  lemma {:induction false} FoldSums(acc: Option<real>, vs: seq<Option<real>>)
    ensures Fold(acc, vs) == if acc.None? && !AnyGiven(vs) then None else Some(acc.GetOr(0.0) + Given(vs))
    decreases |vs|
  {
    if vs != [] {
      FoldSums(Plus(acc, vs[0]), vs[1..]);
      assert AnyGiven(vs) <==> vs[0].Some? || AnyGiven(vs[1..]) by {
        if AnyGiven(vs[1..]) {
          var i :| 0 <= i < |vs[1..]| && vs[1..][i].Some?;
          assert vs[i + 1].Some?;
        }
        if AnyGiven(vs) && vs[0].None? {
          var i :| 0 <= i < |vs| && vs[i].Some?;
          assert vs[1..][i - 1].Some?;
        }
      }
    }
  }

  /** `stream().reduce(calculator::sum).orElse(null)` as written. `reduce`
      wraps its result with Optional.of, which throws on `null`: a
      non-empty list whose values are all `null` ends in a
      NullPointerException. */
  function ReduceAsWritten(vs: seq<Option<real>>): Result<Option<real>, string> {
    if vs == [] then Ok(None)
    else
      var x := Fold(vs[0], vs[1..]);
      if x.None? then Err("NullPointerException") else Ok(x)
  }

  /** The reduction the calculator's documented `null` handling calls
      for: the sum of the non-null values, `null` when there is none. */
  function Reduce(vs: seq<Option<real>>): Option<real> {
    if vs == [] then None else Fold(vs[0], vs[1..])
  }

  lemma ReduceIsGivenSum(vs: seq<Option<real>>)
    ensures Reduce(vs) == if AnyGiven(vs) then Some(Given(vs)) else None
  {
    if vs != [] {
      FoldSums(vs[0], vs[1..]);
      assert Given(vs) == vs[0].GetOr(0.0) + Given(vs[1..]);
      if AnyGiven(vs[1..]) {
        var i :| 0 <= i < |vs[1..]| && vs[1..][i].Some?;
        assert vs[i + 1].Some?;
      }
      if AnyGiven(vs) && vs[0].None? {
        var i :| 0 <= i < |vs| && vs[i].Some?;
        assert vs[1..][i - 1].Some?;
      }
    }
  }

  /** The reduction as written throws exactly on a non-empty list of
      `null` values, and otherwise agrees with the documented one. */
  lemma ReduceAsWrittenThrows(vs: seq<Option<real>>)
    ensures ReduceAsWritten(vs).Err? <==> vs != [] && !AnyGiven(vs)
    ensures ReduceAsWritten(vs).Ok? ==> ReduceAsWritten(vs).value == Reduce(vs)
  {
    ReduceIsGivenSum(vs);
  }

  /** One link with a `null` value: the code throws where a `null` node
      value is meant. */
  lemma NullLinkValueThrows()
    ensures ReduceAsWritten([None]).Err?
    ensures Reduce([None]) == None
  {
    assert !AnyGiven([None]);
    ReduceAsWrittenThrows([None]);
    ReduceIsGivenSum([None]);
  }

  /** The values of the listed links. */
  function LinkValues<I>(links: seq<Link<I>>, ls: seq<nat>): (r: seq<Option<real>>)
    requires forall k :: 0 <= k < |ls| ==> ls[k] < |links|
    ensures |r| == |ls| && forall k :: 0 <= k < |ls| ==> r[k] == links[ls[k]].value
  {
    seq(|ls|, k requires 0 <= k < |ls| => links[ls[k]].value)
  }

  /** `Stream.of(a, b).filter(nonNull).max(naturalOrder).orElse(null)`. */
  function Larger(a: Option<real>, b: Option<real>): (r: Option<real>)
    ensures r.None? <==> a.None? && b.None?
    ensures r.Some? ==> ((r == a || r == b)
      && (a.Some? ==> a.value <= r.value) && (b.Some? ==> b.value <= r.value))
  {
    if a.None? then b
    else if b.None? then a
    else if a.value >= b.value then a else b
  }

  /** The value the loop gives node `u`. */
  function NodeValue<I>(g: Graph<I>, u: nat): Option<real>
    requires Wired(g) && u < |g.nodes|
  {
    WiredEntries(g);
    var x := g.nodes[u];
    if x.fixedValue.Some? then x.fixedValue
    else
      assert forall k :: 0 <= k < |x.sourceLinks| ==> x.sourceLinks[k] < |g.links| by {
        forall k | 0 <= k < |x.sourceLinks| ensures x.sourceLinks[k] < |g.links| {
          assert x.sourceLinks[k] == ListOf(x, Source)[k];
        }
      }
      assert forall k :: 0 <= k < |x.targetLinks| ==> x.targetLinks[k] < |g.links| by {
        forall k | 0 <= k < |x.targetLinks| ensures x.targetLinks[k] < |g.links| {
          assert x.targetLinks[k] == ListOf(x, Target)[k];
        }
      }
      Larger(Reduce(LinkValues(g.links, x.sourceLinks)), Reduce(LinkValues(g.links, x.targetLinks)))
  }

  /** The combined value of the links node `u` lists at end `e`: the sum
      of their non-null values, `null` when none of them has a value. */
  function Totals<I>(g: Graph<I>, u: nat, e: End): Option<real>
    requires Wired(g) && u < |g.nodes|
  {
    WiredEntries(g);
    var vs := LinkValues(g.links, ListOf(g.nodes[u], e));
    if AnyGiven(vs) then Some(Given(vs)) else None
  }

  /** The value rule of `computeNodeValues`: the fixed value when there
      is one, otherwise the larger of the two sums. */
  function ValueRule<I>(g: Graph<I>, u: nat): Option<real>
    requires Wired(g) && u < |g.nodes|
  {
    if g.nodes[u].fixedValue.Some? then g.nodes[u].fixedValue else Larger(Totals(g, u, Source), Totals(g, u, Target))
  }

  /** The fold the loop runs gives the value rule. */
  lemma NodeValueTotals<I>(g: Graph<I>, u: nat)
    requires Wired(g) && u < |g.nodes|
    ensures NodeValue(g, u) == ValueRule(g, u)
  {
    WiredEntries(g);
    var x := g.nodes[u];
    assert ListOf(x, Source) == x.sourceLinks && ListOf(x, Target) == x.targetLinks;
    ReduceIsGivenSum(LinkValues(g.links, x.sourceLinks));
    ReduceIsGivenSum(LinkValues(g.links, x.targetLinks));
  }

  /** computeNodeValues: a node with a fixed value takes it; any other
      node takes the larger of the sums of its outgoing and of its
      incoming link values, `null` when neither list has a value. Nothing
      but the values changes. */
  function ComputeNodeValues<I>(g: Graph<I>): (r: Graph<I>)
    requires Wired(g)
    ensures r.links == g.links && |r.nodes| == |g.nodes|
    ensures forall u :: 0 <= u < |g.nodes| ==> r.nodes[u] == g.nodes[u].(value := NodeValue(g, u))
    ensures forall u :: 0 <= u < |g.nodes| ==> r.nodes[u].value == ValueRule(g, u)
  {
    assert forall u :: 0 <= u < |g.nodes| ==> NodeValue(g, u) == ValueRule(g, u)
    by {
      forall u | 0 <= u < |g.nodes|
        ensures NodeValue(g, u) == ValueRule(g, u)
      {
        NodeValueTotals(g, u);
      }
    }
    g.(nodes := seq(|g.nodes|, u requires 0 <= u < |g.nodes| => g.nodes[u].(value := NodeValue(g, u))))
  }

  /** The combined value of the links with their `e` end at `u`, taken in
      link order. */
  function Flow<I>(g: Graph<I>, u: nat, e: End): Option<real> {
    Reduce(LinkValues(g.links, Select(g.links, u, |g.links|, e)))
  }

  lemma {:induction false} GivenAppend(vs: seq<Option<real>>, ws: seq<Option<real>>)
    ensures Given(vs + ws) == Given(vs) + Given(ws)
    ensures AnyGiven(vs + ws) <==> AnyGiven(vs) || AnyGiven(ws)
    decreases |vs|
  {
    if vs == [] {
      assert vs + ws == ws;
    } else {
      assert (vs + ws)[1..] == vs[1..] + ws;
      GivenAppend(vs[1..], ws);
    }
    if AnyGiven(vs) {
      var i :| 0 <= i < |vs| && vs[i].Some?;
      assert (vs + ws)[i].Some?;
    }
    if AnyGiven(ws) {
      var i :| 0 <= i < |ws| && ws[i].Some?;
      assert (vs + ws)[|vs| + i].Some?;
    }
    if AnyGiven(vs + ws) {
      var i :| 0 <= i < |vs + ws| && (vs + ws)[i].Some?;
      if i < |vs| {
        assert vs[i].Some?;
      } else {
        assert ws[i - |vs|].Some?;
      }
    }
  }

  lemma RemoveOne(a: seq<nat>, b: seq<nat>, i: nat)
    requires a != [] && multiset(a) == multiset(b) && i < |b| && b[i] == a[0]
    ensures multiset(a[1..]) == multiset(b[..i] + b[i + 1..])
  {
    var x := a[0];
    assert a == [x] + a[1..];
    assert b == b[..i] + [x] + b[i + 1..];
    assert multiset(a[1..]) == multiset(a) - multiset{x};
    assert multiset(b[..i] + b[i + 1..]) == multiset(b) - multiset{x};
  }

  lemma LinkValuesAppend<I>(links: seq<Link<I>>, a: seq<nat>, c: seq<nat>)
    requires forall k :: 0 <= k < |a| ==> a[k] < |links|
    requires forall k :: 0 <= k < |c| ==> c[k] < |links|
    ensures forall k :: 0 <= k < |a + c| ==> (a + c)[k] < |links|
    ensures LinkValues(links, a + c) == LinkValues(links, a) + LinkValues(links, c)
  {
    assert forall k :: 0 <= k < |a + c| ==> (a + c)[k] < |links| by {
      forall k | 0 <= k < |a + c| ensures (a + c)[k] < |links| {
        if k < |a| {
          assert (a + c)[k] == a[k];
        } else {
          assert (a + c)[k] == c[k - |a|];
        }
      }
    }
  }

  lemma ValuesSplit<I>(links: seq<Link<I>>, b: seq<nat>, i: nat)
    requires forall k :: 0 <= k < |b| ==> b[k] < |links|
    requires i < |b|
    ensures Given(LinkValues(links, b)) == Given(LinkValues(links, b[..i] + b[i + 1..])) + links[b[i]].value.GetOr(0.0)
    ensures AnyGiven(LinkValues(links, b)) <==> AnyGiven(LinkValues(links, b[..i] + b[i + 1..])) || links[b[i]].value.Some?
  {
    var front := LinkValues(links, b[..i]);
    var back := LinkValues(links, b[i + 1..]);
    var v := links[b[i]].value;
    assert b == b[..i] + [b[i]] + b[i + 1..];
    LinkValuesAppend(links, b[..i] + [b[i]], b[i + 1..]);
    LinkValuesAppend(links, b[..i], [b[i]]);
    assert LinkValues(links, [b[i]]) == [v];
    LinkValuesAppend(links, b[..i], b[i + 1..]);
    GivenSplit(front, v, back);
  }

  /** Taking one value out of a list takes it out of the sum. */
  lemma GivenSplit(front: seq<Option<real>>, v: Option<real>, back: seq<Option<real>>)
    ensures Given(front + [v] + back) == Given(front + back) + v.GetOr(0.0)
    ensures AnyGiven(front + [v] + back) <==> AnyGiven(front + back) || v.Some?
  {
    GivenAppend(front, [v]);
    GivenAppend(front + [v], back);
    GivenAppend(front, back);
    assert AnyGiven([v]) <==> v.Some? by {
      if v.Some? {
        assert [v][0].Some?;
      }
    }
    assert Given([v]) == v.GetOr(0.0) + Given([]);
  }

  /** The combined value of a link list does not depend on its order. */
  lemma {:induction false} GivenPermutes<I>(links: seq<Link<I>>, a: seq<nat>, b: seq<nat>)
    requires forall k :: 0 <= k < |a| ==> a[k] < |links|
    requires forall k :: 0 <= k < |b| ==> b[k] < |links|
    requires multiset(a) == multiset(b)
    ensures Given(LinkValues(links, a)) == Given(LinkValues(links, b))
    ensures AnyGiven(LinkValues(links, a)) <==> AnyGiven(LinkValues(links, b))
    decreases |a|
  {
    if a == [] {
      assert b == [];
    } else {
      var x := a[0];
      assert x in multiset(b);
      var i :| 0 <= i < |b| && b[i] == x;
      var rest := b[..i] + b[i + 1..];
      RemoveOne(a, b, i);
      GivenPermutes(links, a[1..], rest);
      ValuesSplit(links, b, i);
      ValuesSplit(links, a, 0);
      assert a[..0] + a[1..] == a[1..];
    }
  }

  /** The value rule: a node's fixed value when it has one; otherwise the
      larger of the combined values of its outgoing and of its incoming
      links, `null` values skipped, and `null` when no link has a value. */
  lemma ValueIsLargerFlow<I>(g: Graph<I>, u: nat)
    requires Wired(g) && u < |g.nodes|
    ensures g.nodes[u].fixedValue.Some? ==> ComputeNodeValues(g).nodes[u].value == g.nodes[u].fixedValue
    ensures g.nodes[u].fixedValue.None? ==>
      ComputeNodeValues(g).nodes[u].value == Larger(Flow(g, u, Source), Flow(g, u, Target))
    ensures Flow(g, u, Source) == if AnyGiven(LinkValues(g.links, Select(g.links, u, |g.links|, Source)))
      then Some(Given(LinkValues(g.links, Select(g.links, u, |g.links|, Source)))) else None
  {
    WiredEntries(g);
    var x := g.nodes[u];
    ReduceIsGivenSum(LinkValues(g.links, Select(g.links, u, |g.links|, Source)));
    if x.fixedValue.None? {
      forall e: End
        ensures Reduce(LinkValues(g.links, ListOf(x, e))) == Flow(g, u, e)
      {
        var own := ListOf(x, e);
        var sel := Select(g.links, u, |g.links|, e);
        assert forall k :: 0 <= k < |own| ==> own[k] < |g.links|;
        GivenPermutes(g.links, own, sel);
        ReduceIsGivenSum(LinkValues(g.links, own));
        ReduceIsGivenSum(LinkValues(g.links, sel));
      }
      assert ListOf(x, Source) == x.sourceLinks && ListOf(x, Target) == x.targetLinks;
    }
  }
}
