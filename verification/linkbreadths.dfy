/** computeLinkBreadths: every node stacks its outgoing links downwards
    from its top edge, setting each link's `y0` to the middle of its band,
    and stacks its incoming links the same way into `y1`. */
module SankeyBreadths {
  import opened Sankeys

  /** The total width of the first `n` listed links. */
  function Widths<I>(links: seq<Link<I>>, ls: seq<nat>, n: nat): real
    requires n <= |ls| && forall k :: 0 <= k < |ls| ==> ls[k] < |links|
  {
    if n == 0 then 0.0 else Widths(links, ls, n - 1) + links[ls[n - 1]].width
  }

  /** The coordinate a link has at end `e`: `y0` where it leaves its
      source, `y1` where it enters its target. */
  function Pos<I>(l: Link<I>, e: End): real {
    if e == Source then l.y0 else l.y1
  }

  /** `l` with its coordinate at end `e` set to `y` and nothing else changed. */
  function Place<I>(l: Link<I>, e: End, y: real): Link<I> {
    if e == Source then l.(y0 := y) else l.(y1 := y)
  }

  /** Placing twice at the same end keeps only the second coordinate. */
  lemma PlaceTwice<I>(a: Link<I>, e: End, p: real, q: real)
    ensures Pos(Place(a, e, q), e) == q
    ensures Place(Place(a, e, p), e, q) == Place(a, e, q)
  {
    if e == Source {
      assert Place(Place(a, e, p), e, q) == a.(y0 := q);
    } else {
      assert Place(Place(a, e, p), e, q) == a.(y1 := q);
    }
  }

  /** Links agree apart from their coordinates at the two ends. */
  ghost predicate Moved<I>(a: Link<I>, b: Link<I>) {
    b == a.(y0 := b.y0, y1 := b.y1)
  }

  lemma WidthsSame<I>(a: seq<Link<I>>, b: seq<Link<I>>, ls: seq<nat>, n: nat)
    requires |a| == |b| && n <= |ls| && forall k :: 0 <= k < |ls| ==> ls[k] < |a|
    requires forall l :: 0 <= l < |a| ==> a[l].width == b[l].width
    ensures Widths(a, ls, n) == Widths(b, ls, n)
  {
    if n > 0 {
      WidthsSame(a, b, ls, n - 1);
    }
  }

  /** `b` is `a` with at most its coordinate at end `e` changed. */
  ghost predicate Shifted<I>(a: Link<I>, b: Link<I>, e: End) {
    b == Place(a, e, Pos(b, e))
  }

  /** One inner loop: the links `ls` stacked at end `e` from `y` down.
      Each listed link gets the middle of its band, which starts after the
      widths of the links listed before it; unlisted links and the other
      end are left alone. */
  method Stack<I>(links: seq<Link<I>>, ls: seq<nat>, y: real, e: End) returns (r: seq<Link<I>>)
    requires Distinct(ls) && forall k :: 0 <= k < |ls| ==> ls[k] < |links|
    ensures |r| == |links|
    ensures forall l {:trigger r[l]} :: 0 <= l < |links| ==> Shifted(links[l], r[l], e)
    ensures forall l {:trigger r[l]} :: 0 <= l < |links| && l !in ls ==> r[l] == links[l]
    ensures forall k {:trigger r[ls[k]]} :: 0 <= k < |ls| ==>
      Pos(r[ls[k]], e) == y + Widths(links, ls, k) + links[ls[k]].width / 2.0
  {
    var want := Bands(links, ls, y);
    r := links;
    var next := y;
    var i := 0;
    while i < |ls|
      invariant 0 <= i <= |ls| && |r| == |links|
      invariant next == y + Widths(links, ls, i)
      invariant StackedPrefix(links, ls, want, e, r, i)
    {
      var l := ls[i];
      var q := next + links[l].width / 2.0;
      var placed := Place(r[l], e, q);
      StackStep(links, ls, want, e, r, i, q, placed);
      r := r[l := placed];
      next := next + links[l].width;
      i := i + 1;
    }
    assert ls[..i] == ls;
  }

  /** The middle of each listed link's band when the bands are stacked
      from `y` down. */
  function Bands<I>(links: seq<Link<I>>, ls: seq<nat>, y: real): (w: seq<real>)
    requires forall k :: 0 <= k < |ls| ==> ls[k] < |links|
    ensures |w| == |ls|
    ensures forall k {:trigger w[k]} :: 0 <= k < |ls| ==> w[k] == y + Widths(links, ls, k) + links[ls[k]].width / 2.0
  {
    seq(|ls|, k requires 0 <= k < |ls| => y + Widths(links, ls, k) + links[ls[k]].width / 2.0)
  }

  /** The inner loop after `i` links. */
  ghost predicate StackedPrefix<I>(links: seq<Link<I>>, ls: seq<nat>, want: seq<real>, e: End, r: seq<Link<I>>, i: nat)
    requires i <= |ls| == |want| && |r| == |links| && forall k :: 0 <= k < |ls| ==> ls[k] < |links|
  {
    (forall l {:trigger r[l]} :: 0 <= l < |links| ==> Shifted(links[l], r[l], e))
    && (forall l {:trigger r[l]} :: 0 <= l < |links| && l !in ls[..i] ==> r[l] == links[l])
    && forall k {:trigger r[ls[k]]} :: 0 <= k < i ==> Pos(r[ls[k]], e) == want[k]
  }

  lemma StackStep<I>(links: seq<Link<I>>, ls: seq<nat>, want: seq<real>, e: End, r: seq<Link<I>>, i: nat, q: real, placed: Link<I>)
    requires Distinct(ls) && forall k :: 0 <= k < |ls| ==> ls[k] < |links|
    requires i < |ls| == |want| && |r| == |links| && StackedPrefix(links, ls, want, e, r, i)
    requires q == want[i]
    requires placed == Place(r[ls[i]], e, q)
    ensures StackedPrefix(links, ls, want, e, r[ls[i] := placed], i + 1)
  {
    var r2 := r[ls[i] := placed];
    ShiftedAgain(links[ls[i]], r[ls[i]], e, q);
    StepShifted(links, ls, e, r, r2, i);
    StepUntouched(links, ls, r, r2, i);
    assert forall k :: 0 <= k < i ==> ls[k] != ls[i];
    StepBands(ls, e, r, r2, i, want);
  }

  lemma StepShifted<I>(links: seq<Link<I>>, ls: seq<nat>, e: End, r: seq<Link<I>>, r2: seq<Link<I>>, i: nat)
    requires i < |ls| && ls[i] < |links| && |r| == |links| && |r2| == |links|
    requires forall l {:trigger r[l]} :: 0 <= l < |links| ==> Shifted(links[l], r[l], e)
    requires Shifted(links[ls[i]], r2[ls[i]], e)
    requires forall l :: 0 <= l < |links| && l != ls[i] ==> r2[l] == r[l]
    ensures forall l {:trigger r2[l]} :: 0 <= l < |links| ==> Shifted(links[l], r2[l], e)
  {
    forall l | 0 <= l < |links|
      ensures Shifted(links[l], r2[l], e)
    {
      if l != ls[i] {
        assert r2[l] == r[l];
      }
    }
  }

  lemma StepUntouched<I>(links: seq<Link<I>>, ls: seq<nat>, r: seq<Link<I>>, r2: seq<Link<I>>, i: nat)
    requires i < |ls| && |r| == |links| && |r2| == |links|
    requires forall l {:trigger r[l]} :: 0 <= l < |links| && l !in ls[..i] ==> r[l] == links[l]
    requires forall l :: 0 <= l < |links| && l != ls[i] ==> r2[l] == r[l]
    ensures forall l {:trigger r2[l]} :: 0 <= l < |links| && l !in ls[..i + 1] ==> r2[l] == links[l]
  {
    assert ls[..i + 1] == ls[..i] + [ls[i]];
    forall l | 0 <= l < |links| && l !in ls[..i + 1]
      ensures r2[l] == links[l]
    {
      assert l !in ls[..i] && l != ls[i];
      assert r2[l] == r[l];
    }
  }

  /** Setting entry `ls[i]` keeps the coordinates already laid for the
      distinct entries before it. */
  lemma StepBands<I>(ls: seq<nat>, e: End, r: seq<Link<I>>, r2: seq<Link<I>>, i: nat, want: seq<real>)
    requires i < |ls| == |want| && |r| == |r2| && forall k :: 0 <= k < |ls| ==> ls[k] < |r|
    requires forall k :: 0 <= k < i ==> ls[k] != ls[i]
    requires forall k {:trigger r[ls[k]]} :: 0 <= k < i ==> Pos(r[ls[k]], e) == want[k]
    requires Pos(r2[ls[i]], e) == want[i]
    requires forall l :: 0 <= l < |r| && l != ls[i] ==> r2[l] == r[l]
    ensures forall k {:trigger r2[ls[k]]} :: 0 <= k < i + 1 ==> Pos(r2[ls[k]], e) == want[k]
  {
    forall k {:trigger r2[ls[k]]} | 0 <= k < i + 1
      ensures Pos(r2[ls[k]], e) == want[k]
    {
      if k < i {
        assert r2[ls[k]] == r[ls[k]];
      }
    }
  }

  lemma ShiftedAgain<I>(a: Link<I>, b: Link<I>, e: End, q: real)
    requires Shifted(a, b, e)
    ensures Shifted(a, Place(b, e, q), e) && Pos(Place(b, e, q), e) == q
  {
    PlaceTwice(a, e, Pos(b, e), q);
  }

  /** The outer loop over the first `m` nodes. */
  ghost predicate StackedUpTo<I>(g: Graph<I>, r: seq<Link<I>>, m: nat)
    requires Wired(g) && m <= |g.nodes| && |r| == |g.links|
  {
    (forall l {:trigger r[l]} :: 0 <= l < |r| ==> Moved(g.links[l], r[l]))
    && (forall l :: 0 <= l < |r| && g.links[l].source.value >= m ==> r[l].y0 == g.links[l].y0)
    && (forall l :: 0 <= l < |r| && g.links[l].target.value >= m ==> r[l].y1 == g.links[l].y1)
    && forall u, e :: 0 <= u < m ==> Banded(g, r, u, e)
  }

  /** Node `u`'s links at end `e` sit in consecutive bands from its top. */
  ghost predicate Banded<I>(g: Graph<I>, r: seq<Link<I>>, u: nat, e: End)
    requires Wired(g) && u < |g.nodes| && |r| == |g.links|
  {
    var ls := ListOf(g.nodes[u], e);
    WiredList(g, u, e);
    forall k {:trigger r[ls[k]]} :: 0 <= k < |ls| ==>
      Pos(r[ls[k]], e) == g.nodes[u].y0 + Widths(g.links, ls, k) + g.links[ls[k]].width / 2.0
  }

  /** Every link gets its band on both of its nodes; nothing but the two
      band coordinates changes. */
  method ComputeLinkBreadths<I>(g: Graph<I>) returns (r: Graph<I>)
    requires Wired(g)
    ensures r.nodes == g.nodes && |r.links| == |g.links| && Wired(r)
    ensures forall l {:trigger r.links[l]} :: 0 <= l < |g.links| ==> Moved(g.links[l], r.links[l])
    ensures forall u, e :: 0 <= u < |g.nodes| ==> Banded(g, r.links, u, e)
  {
    WiredEntries(g);
    var links := g.links;
    var m := 0;
    while m < |g.nodes|
      invariant 0 <= m <= |g.nodes| && |links| == |g.links|
      invariant StackedUpTo(g, links, m)
    {
      links := StackNode(g, links, m);
      m := m + 1;
    }
    r := g.(links := links);
    assert Wired(r) by {
      forall u: nat, e | u < |g.nodes|
        ensures Select(r.links, u, |r.links|, e) == Select(g.links, u, |g.links|, e)
      {
        forall l | 0 <= l < |g.links|
          ensures EndOf(r.links[l], e) == EndOf(g.links[l], e)
        {
          assert Moved(g.links[l], r.links[l]);
        }
        SelectSame(r.links, g.links, u, |g.links|, e);
      }
    }
  }

  /** One round of the outer loop: node `m` stacks its outgoing links,
      then its incoming ones. */
  method StackNode<I>(g: Graph<I>, links: seq<Link<I>>, m: nat) returns (r: seq<Link<I>>)
    requires Wired(g) && m < |g.nodes| && |links| == |g.links|
    requires StackedUpTo(g, links, m)
    ensures |r| == |g.links| && StackedUpTo(g, r, m + 1)
  {
    var x := g.nodes[m];
    ListsInRange(g, m);
    WiredDistinct(g, m, Source);
    WiredDistinct(g, m, Target);
    var mid := Stack(links, x.sourceLinks, x.y0, Source);
    r := Stack(mid, x.targetLinks, x.y0, Target);
    RoundKeeps(g, links, mid, r, m);
    SourceBands(g, links, mid, r, m);
    TargetBands(g, mid, r, m);
    RoundDone(g, links, r, m);
  }

  /** A round moves only the band coordinates, and only at node `m`. */
  lemma RoundKeeps<I>(g: Graph<I>, links: seq<Link<I>>, mid: seq<Link<I>>, r: seq<Link<I>>, m: nat)
    requires Wired(g) && m < |g.nodes| && |links| == |g.links| && |mid| == |links| && |r| == |links|
    requires forall l {:trigger links[l]} :: 0 <= l < |links| ==> Moved(g.links[l], links[l])
    requires forall l {:trigger mid[l]} :: 0 <= l < |links| ==> Shifted(links[l], mid[l], Source)
    requires forall l {:trigger mid[l]} :: 0 <= l < |links| && l !in g.nodes[m].sourceLinks ==> mid[l] == links[l]
    requires forall l {:trigger r[l]} :: 0 <= l < |links| ==> Shifted(mid[l], r[l], Target)
    requires forall l {:trigger r[l]} :: 0 <= l < |links| && l !in g.nodes[m].targetLinks ==> r[l] == mid[l]
    ensures forall l :: 0 <= l < |links| ==>
      && Moved(g.links[l], r[l]) && r[l].width == g.links[l].width
      && mid[l].width == g.links[l].width && links[l].width == g.links[l].width
      && (g.links[l].source.value != m ==> r[l].y0 == links[l].y0)
      && (g.links[l].target.value != m ==> r[l].y1 == links[l].y1)
  {
    forall l | 0 <= l < |links|
      ensures Moved(g.links[l], r[l]) && r[l].width == g.links[l].width
      ensures mid[l].width == g.links[l].width && links[l].width == g.links[l].width
      ensures g.links[l].source.value != m ==> r[l].y0 == links[l].y0
      ensures g.links[l].target.value != m ==> r[l].y1 == links[l].y1
    {
      LinkKept(g, links, mid, r, m, l);
    }
  }

  /** Node `m`'s outgoing bands, laid in the first inner loop, survive the
      second, which moves only `y1`. */
  lemma SourceBands<I>(g: Graph<I>, links: seq<Link<I>>, mid: seq<Link<I>>, r: seq<Link<I>>, m: nat)
    requires Wired(g) && m < |g.nodes| && |links| == |g.links| && |mid| == |links| && |r| == |links|
    requires forall k :: 0 <= k < |g.nodes[m].sourceLinks| ==> g.nodes[m].sourceLinks[k] < |links|
    requires forall l :: 0 <= l < |links| ==> links[l].width == g.links[l].width
    requires var ls := g.nodes[m].sourceLinks;
      forall k {:trigger mid[ls[k]]} :: 0 <= k < |ls| ==>
        Pos(mid[ls[k]], Source) == g.nodes[m].y0 + Widths(links, ls, k) + links[ls[k]].width / 2.0
    requires forall l {:trigger r[l]} :: 0 <= l < |links| ==> Shifted(mid[l], r[l], Target)
    ensures Banded(g, r, m, Source)
  {
    var ls := g.nodes[m].sourceLinks;
    WidthsPrefixesSame(links, g.links, ls);
    forall k | 0 <= k < |ls|
      ensures Pos(r[ls[k]], Source) == g.nodes[m].y0 + Widths(g.links, ls, k) + g.links[ls[k]].width / 2.0
    {
      assert Shifted(mid[ls[k]], r[ls[k]], Target);
    }
  }

  /** Node `m`'s incoming bands, laid in the second inner loop. */
  lemma TargetBands<I>(g: Graph<I>, mid: seq<Link<I>>, r: seq<Link<I>>, m: nat)
    requires Wired(g) && m < |g.nodes| && |mid| == |g.links| && |r| == |mid|
    requires forall k :: 0 <= k < |g.nodes[m].targetLinks| ==> g.nodes[m].targetLinks[k] < |mid|
    requires forall l :: 0 <= l < |mid| ==> mid[l].width == g.links[l].width
    requires var ls := g.nodes[m].targetLinks;
      forall k {:trigger r[ls[k]]} :: 0 <= k < |ls| ==>
        Pos(r[ls[k]], Target) == g.nodes[m].y0 + Widths(mid, ls, k) + mid[ls[k]].width / 2.0
    ensures Banded(g, r, m, Target)
  {
    WidthsPrefixesSame(mid, g.links, g.nodes[m].targetLinks);
  }

  /** After node `m`'s round the outer loop's invariant holds for `m + 1`. */
  lemma RoundDone<I>(g: Graph<I>, links: seq<Link<I>>, r: seq<Link<I>>, m: nat)
    requires Wired(g) && m < |g.nodes| && |links| == |g.links| && |r| == |links|
    requires StackedUpTo(g, links, m)
    requires forall l :: 0 <= l < |links| ==>
      && Moved(g.links[l], r[l])
      && (g.links[l].source.value != m ==> r[l].y0 == links[l].y0)
      && (g.links[l].target.value != m ==> r[l].y1 == links[l].y1)
    requires Banded(g, r, m, Source) && Banded(g, r, m, Target)
    ensures StackedUpTo(g, r, m + 1)
  {
    RoundBands(g, links, r, m);
    forall l | 0 <= l < |r| && g.links[l].source.value >= m + 1
      ensures r[l].y0 == g.links[l].y0
    {
      assert r[l].y0 == links[l].y0;
    }
    forall l | 0 <= l < |r| && g.links[l].target.value >= m + 1
      ensures r[l].y1 == g.links[l].y1
    {
      assert r[l].y1 == links[l].y1;
    }
  }

  /** After node `m`'s round, the nodes before it keep their bands and
      node `m` has its own. */
  lemma RoundBands<I>(g: Graph<I>, links: seq<Link<I>>, r: seq<Link<I>>, m: nat)
    requires Wired(g) && m < |g.nodes| && |links| == |g.links| && |r| == |links|
    requires forall u, e :: 0 <= u < m ==> Banded(g, links, u, e)
    requires forall l :: 0 <= l < |links| && g.links[l].source.value != m ==> r[l].y0 == links[l].y0
    requires forall l :: 0 <= l < |links| && g.links[l].target.value != m ==> r[l].y1 == links[l].y1
    requires Banded(g, r, m, Source) && Banded(g, r, m, Target)
    ensures forall u, e :: 0 <= u < m + 1 ==> Banded(g, r, u, e)
  {
    forall u, e | 0 <= u < m + 1
      ensures Banded(g, r, u, e)
    {
      if u < m {
        EarlierBandKept(g, links, r, m, u, e);
      } else {
        assert e == Source || e == Target;
      }
    }
  }

  /** The lists of node `u` index links of the graph. */
  lemma ListsInRange<I>(g: Graph<I>, u: nat)
    requires Wired(g) && u < |g.nodes|
    ensures forall k :: 0 <= k < |g.nodes[u].sourceLinks| ==> g.nodes[u].sourceLinks[k] < |g.links|
    ensures forall k :: 0 <= k < |g.nodes[u].targetLinks| ==> g.nodes[u].targetLinks[k] < |g.links|
  {
    forall k | 0 <= k < |g.nodes[u].sourceLinks|
      ensures g.nodes[u].sourceLinks[k] < |g.links|
    {
      WiredEntry(g, u, Source, k);
    }
    forall k | 0 <= k < |g.nodes[u].targetLinks|
      ensures g.nodes[u].targetLinks[k] < |g.links|
    {
      WiredEntry(g, u, Target, k);
    }
  }

  /** A link node `m` does not list is left where it was. */
  lemma LinkKept<I>(g: Graph<I>, links: seq<Link<I>>, mid: seq<Link<I>>, r: seq<Link<I>>, m: nat, l: nat)
    requires Wired(g) && m < |g.nodes| && l < |g.links| && |links| == |g.links| && |mid| == |links| && |r| == |links|
    requires Moved(g.links[l], links[l])
    requires Shifted(links[l], mid[l], Source) && Shifted(mid[l], r[l], Target)
    requires l !in g.nodes[m].sourceLinks ==> mid[l] == links[l]
    requires l !in g.nodes[m].targetLinks ==> r[l] == mid[l]
    ensures Moved(g.links[l], r[l]) && r[l].width == g.links[l].width
    ensures mid[l].width == g.links[l].width && links[l].width == g.links[l].width
    ensures g.links[l].source.value != m ==> r[l].y0 == links[l].y0
    ensures g.links[l].target.value != m ==> r[l].y1 == links[l].y1
  {
    if l in g.nodes[m].sourceLinks {
      var k :| 0 <= k < |g.nodes[m].sourceLinks| && g.nodes[m].sourceLinks[k] == l;
      WiredEntry(g, m, Source, k);
    }
    if l in g.nodes[m].targetLinks {
      var k :| 0 <= k < |g.nodes[m].targetLinks| && g.nodes[m].targetLinks[k] == l;
      WiredEntry(g, m, Target, k);
    }
  }

  /** The bands of a node already visited stay as they were. */
  lemma EarlierBandKept<I>(g: Graph<I>, links: seq<Link<I>>, r: seq<Link<I>>, m: nat, u: nat, e: End)
    requires Wired(g) && u < m <= |g.nodes| && |links| == |g.links| && |r| == |links|
    requires Banded(g, links, u, e)
    requires forall l :: 0 <= l < |links| && g.links[l].source.value != m ==> r[l].y0 == links[l].y0
    requires forall l :: 0 <= l < |links| && g.links[l].target.value != m ==> r[l].y1 == links[l].y1
    ensures Banded(g, r, u, e)
  {
    var ls := ListOf(g.nodes[u], e);
    forall k | 0 <= k < |ls|
      ensures ls[k] < |links| && Pos(r[ls[k]], e) == Pos(links[ls[k]], e)
    {
      WiredEntry(g, u, e, k);
    }
  }

  lemma WidthsPrefixesSame<I>(a: seq<Link<I>>, b: seq<Link<I>>, ls: seq<nat>)
    requires |a| == |b| && forall k :: 0 <= k < |ls| ==> ls[k] < |a|
    requires forall l :: 0 <= l < |a| ==> a[l].width == b[l].width
    ensures forall k :: 0 <= k <= |ls| ==> Widths(a, ls, k) == Widths(b, ls, k)
  {
    forall k | 0 <= k <= |ls|
      ensures Widths(a, ls, k) == Widths(b, ls, k)
    {
      WidthsSame(a, b, ls, k);
    }
  }

  /** The bands are laid edge to edge: a node's first link at either end
      starts at the node's top, each next one starts where the one before
      it ends, and the last ends the total width of the list below the
      top. */
  lemma BandsAbut<I>(g: Graph<I>, r: Graph<I>, u: nat, e: End)
    requires Wired(g) && u < |g.nodes| && |r.links| == |g.links|
    requires forall l {:trigger r.links[l]} :: 0 <= l < |g.links| ==> Moved(g.links[l], r.links[l])
    requires Banded(g, r.links, u, e)
    ensures var ls := ListOf(g.nodes[u], e); var top := g.nodes[u].y0;
      && (forall k :: 0 <= k < |ls| ==> ls[k] < |r.links|)
      && (|ls| > 0 ==> Pos(r.links[ls[0]], e) - r.links[ls[0]].width / 2.0 == top)
      && (forall k :: 0 <= k < |ls| - 1 ==>
            Pos(r.links[ls[k]], e) + r.links[ls[k]].width / 2.0
              == Pos(r.links[ls[k + 1]], e) - r.links[ls[k + 1]].width / 2.0)
      && (|ls| > 0 ==>
            Pos(r.links[ls[|ls| - 1]], e) + r.links[ls[|ls| - 1]].width / 2.0 == top + Widths(g.links, ls, |ls|))
  {
    var ls := ListOf(g.nodes[u], e);
    WiredList(g, u, e);
    forall l | 0 <= l < |g.links|
      ensures r.links[l].width == g.links[l].width
    {
      assert Moved(g.links[l], r.links[l]);
    }
    AbutFacts(g.links, r.links, ls, g.nodes[u].y0, e);
  }

  /** Bands whose middles sit at the running width plus half their own
      width lie edge to edge. */
  lemma AbutFacts<I>(links: seq<Link<I>>, r: seq<Link<I>>, ls: seq<nat>, top: real, e: End)
    requires |r| == |links| && forall k :: 0 <= k < |ls| ==> ls[k] < |links|
    requires forall l :: 0 <= l < |links| ==> r[l].width == links[l].width
    requires forall k {:trigger r[ls[k]]} :: 0 <= k < |ls| ==>
      Pos(r[ls[k]], e) == top + Widths(links, ls, k) + links[ls[k]].width / 2.0
    ensures |ls| > 0 ==> Pos(r[ls[0]], e) - r[ls[0]].width / 2.0 == top
    ensures forall k :: 0 <= k < |ls| - 1 ==>
      Pos(r[ls[k]], e) + r[ls[k]].width / 2.0 == Pos(r[ls[k + 1]], e) - r[ls[k + 1]].width / 2.0
    ensures |ls| > 0 ==> Pos(r[ls[|ls| - 1]], e) + r[ls[|ls| - 1]].width / 2.0 == top + Widths(links, ls, |ls|)
  {
    forall k | 0 <= k < |ls| - 1
      ensures Pos(r[ls[k]], e) + r[ls[k]].width / 2.0 == Pos(r[ls[k + 1]], e) - r[ls[k + 1]].width / 2.0
    {
      assert Widths(links, ls, k + 1) == Widths(links, ls, k) + links[ls[k]].width;
    }
  }
}
