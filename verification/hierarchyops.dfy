/** The queries and bulk updates of AbstractNode: `count`, `sum`, `sort`,
    `ancestors`, the least common ancestor, `path`, `descendants`,
    `leaves` and `links`. Where the source's list building disagrees
    with the order its documentation promises, both the code as written
    and the documented order are modelled. */
module HierarchyOps {
  import opened Wrappers
  import opened Hierarchies

  /** `LinkedList.push` of each element in turn: onto the front. */
  function Pushed<T>(s: seq<T>, acc: seq<T>): (r: seq<T>)
    ensures r == Reverse(s) + acc
  {
    if s == [] then acc else Pushed(s[1..], [s[0]] + acc)
  }

  // ---------------------------------------------------------------------
  // count and sum

  function OrZero(v: Option<real>): real {
    if v.Some? then v.value else 0.0
  }

  /** The children's values added up (a missing value counts as zero). */
  function Values<D>(s: seq<HNode<D>>): real {
    if s == [] then 0.0 else OrZero(s[0].value) + Values(s[1..])
  }

  /** The post-order pass shared by `count` and `sum`: every node's value
      becomes its own contribution plus its children's (new) values;
      nothing else changes. */
  function Rollup<D>(t: HNode<D>, own: HNode<D> -> real): (r: HNode<D>)
    ensures r.data == t.data && r.depth == t.depth && r.height == t.height
    ensures r.children.Null? == t.children.Null? && |Kids(r)| == |Kids(t)|
    ensures r.value.Some?
    decreases t, 1
  {
    var kids := RollupFrom(t, own, 0);
    t.(value := Some(own(t) + Values(kids)), children := if t.children.Null? then Null else List(kids))
  }

  function RollupFrom<D>(t: HNode<D>, own: HNode<D> -> real, i: nat): (r: seq<HNode<D>>)
    ensures |r| == if i <= |Kids(t)| then |Kids(t)| - i else 0
    decreases t, 0, |Kids(t)| - i
  {
    if i >= |Kids(t)| then [] else [Rollup(Kids(t)[i], own)] + RollupFrom(t, own, i + 1)
  }

  /** A leaf of `count` has no children, whether its list is absent or
      empty. */
  function CountOwn<D>(t: HNode<D>): real {
    if |Kids(t)| == 0 then 1.0 else 0.0
  }

  /** `count`: a leaf's value is one, an inner node's the sum of its
      children's values. */
  function Count<D>(t: HNode<D>): HNode<D> {
    Rollup(t, CountOwn)
  }

  /** `sum`: a node's value is the accessor's value for its datum (zero
      for `null`) plus its children's values. */
  function Sum<D>(t: HNode<D>, value: D -> Option<real>): HNode<D> {
    Rollup(t, (n: HNode<D>) => OrZero(value(n.data)))
  }

  /** The contributions of a list of nodes added up. */
  function Total<D>(s: seq<Item<D>>, own: HNode<D> -> real): real {
    if s == [] then 0.0 else own(s[0].node) + Total(s[1..], own)
  }

  lemma {:induction false} TotalAppend<D>(a: seq<Item<D>>, b: seq<Item<D>>, own: HNode<D> -> real)
    ensures Total(a + b, own) == Total(a, own) + Total(b, own)
  {
    if a != [] {
      assert (a + b)[1..] == a[1..] + b;
      TotalAppend(a[1..], b, own);
    } else {
      assert a + b == b;
    }
  }

  lemma {:induction false} RollupIsTotal<D>(x: Item<D>, own: HNode<D> -> real)
    ensures Rollup(x.node, own).value == Some(Total(PreOrder(x), own))
    decreases x.node, 1
  {
    RollupFromIsTotal(x, own, 0);
    TotalAppend([x], PreFrom(x, 0), own);
  }

  lemma {:induction false} RollupFromIsTotal<D>(x: Item<D>, own: HNode<D> -> real, i: nat)
    ensures Values(RollupFrom(x.node, own, i)) == Total(PreFrom(x, i), own)
    decreases x.node, 0, |Kids(x.node)| - i
  {
    if i < |Kids(x.node)| {
      var c := Children(x)[i];
      RollupIsTotal(c, own);
      RollupFromIsTotal(x, own, i + 1);
      TotalAppend(PreOrder(c), PreFrom(x, i + 1), own);
      assert RollupFrom(x.node, own, i)[1..] == RollupFrom(x.node, own, i + 1);
    }
  }

  /** The nodes without children. */
  function Bare<D>(s: seq<Item<D>>): nat {
    if s == [] then 0 else (if |Kids(s[0].node)| == 0 then 1 else 0) + Bare(s[1..])
  }

  lemma {:induction false} TotalOfCountOwn<D>(s: seq<Item<D>>)
    ensures Total(s, CountOwn) == Bare(s) as real
  {
    if s != [] {
      TotalOfCountOwn(s[1..]);
    }
  }

  /** `count` gives every node the number of childless nodes in its
      subtree. */
  lemma CountIsLeafCount<D>(t: HNode<D>)
    ensures Count(t).value == Some(Bare(EachBefore(t)) as real)
  {
    RollupIsTotal(Root(t), CountOwn);
    TotalOfCountOwn(EachBefore(t));
  }

  /** `sum` gives the root the accessor's values over the whole tree. */
  lemma SumIsTotal<D>(t: HNode<D>, value: D -> Option<real>)
    ensures Sum(t, value).value == Some(Total(EachBefore(t), (n: HNode<D>) => OrZero(value(n.data))))
  {
    RollupIsTotal(Root(t), (n: HNode<D>) => OrZero(value(n.data)));
  }

  lemma {:induction false} RollupFromKid<D>(t: HNode<D>, own: HNode<D> -> real, i: nat, k: nat)
    requires i <= k < |Kids(t)|
    ensures RollupFrom(t, own, i)[k - i] == Rollup(Kids(t)[k], own)
    decreases k - i
  {
    var rest := RollupFrom(t, own, i + 1);
    assert RollupFrom(t, own, i) == [Rollup(Kids(t)[i], own)] + rest;
    if i < k {
      RollupFromKid(t, own, i + 1, k);
      assert rest[k - i - 1] == Rollup(Kids(t)[k], own);
    }
  }

  /** Child `k` of the roll-up is the roll-up of child `k`. */
  lemma RollupKid<D>(t: HNode<D>, own: HNode<D> -> real, k: nat)
    requires k < |Kids(t)|
    ensures k < |Kids(Rollup(t, own))| && Kids(Rollup(t, own))[k] == Rollup(Kids(t)[k], own)
  {
    RollupFromKid(t, own, 0, k);
  }

  /** The roll-up of a tree holds, at every address of the tree, the
      roll-up of the subtree found there. */
  lemma {:induction false} RollupAt<D>(t: HNode<D>, own: HNode<D> -> real, a: Addr)
    requires Valid(t, a)
    ensures Valid(Rollup(t, own), a) && At(Rollup(t, own), a) == Rollup(At(t, a), own)
    decreases |a|
  {
    if |a| > 0 {
      RollupKid(t, own, a[0]);
      RollupAt(Kids(t)[a[0]], own, a[1..]);
    }
  }

  /** `count` gives every node, not only the root, the number of childless
      nodes in its own subtree. */
  lemma CountAt<D>(t: HNode<D>, a: Addr)
    requires Valid(t, a)
    ensures Valid(Count(t), a) && At(Count(t), a).value == Some(Bare(EachBefore(At(t, a))) as real)
  {
    RollupAt(t, CountOwn, a);
    CountIsLeafCount(At(t, a));
  }

  /** `sum` gives every node the accessor's values over its own subtree. */
  lemma SumAt<D>(t: HNode<D>, value: D -> Option<real>, a: Addr)
    requires Valid(t, a)
    ensures Valid(Sum(t, value), a)
    ensures At(Sum(t, value), a).value
      == Some(Total(EachBefore(At(t, a)), (n: HNode<D>) => OrZero(value(n.data))))
  {
    RollupAt(t, (n: HNode<D>) => OrZero(value(n.data)), a);
    SumIsTotal(At(t, a), value);
  }

  // ---------------------------------------------------------------------
  // sort

  /** `s` in the order of `cmp`: no element compares above its successor. */
  predicate Ordered<T>(s: seq<T>, cmp: (T, T) -> int) {
    forall k | 0 <= k < |s| - 1 :: cmp(s[k], s[k + 1]) <= 0
  }

  /** The sign rule of a Java comparator. */
  ghost predicate Antisymmetric<T(!new)>(cmp: (T, T) -> int) {
    forall x, y :: cmp(x, y) > 0 <==> cmp(y, x) < 0
  }

  /** Insert `x` after every element that does not compare above it. */
  function Insert<T>(x: T, s: seq<T>, cmp: (T, T) -> int): (r: seq<T>)
    ensures multiset(r) == multiset(s) + multiset{x}
  {
    if s == [] then [x]
    else if cmp(s[0], x) > 0 then [x] + s
    else
      assert s == [s[0]] + s[1..];
      [s[0]] + Insert(x, s[1..], cmp)
  }

  /** A stable sort; `List.sort` is stable, so with a comparator that obeys
      its contract both give the same list. */
  function InsertionSort<T>(s: seq<T>, cmp: (T, T) -> int): (r: seq<T>)
    ensures multiset(r) == multiset(s)
  {
    if s == [] then []
    else
      assert s == s[..|s| - 1] + [s[|s| - 1]];
      Insert(s[|s| - 1], InsertionSort(s[..|s| - 1], cmp), cmp)
  }

  lemma {:induction false} InsertOrdered<T(!new)>(x: T, s: seq<T>, cmp: (T, T) -> int)
    requires Antisymmetric(cmp) && Ordered(s, cmp)
    ensures Ordered(Insert(x, s, cmp), cmp)
    ensures |s| > 0 ==> Insert(x, s, cmp)[0] == x || Insert(x, s, cmp)[0] == s[0]
  {
    if s != [] && cmp(s[0], x) <= 0 {
      InsertOrdered(x, s[1..], cmp);
    }
  }

  lemma {:induction false} InsertionSortOrders<T(!new)>(s: seq<T>, cmp: (T, T) -> int)
    requires Antisymmetric(cmp)
    ensures Ordered(InsertionSort(s, cmp), cmp)
  {
    if s != [] {
      InsertionSortOrders(s[..|s| - 1], cmp);
      InsertOrdered(s[|s| - 1], InsertionSort(s[..|s| - 1], cmp), cmp);
    }
  }

  /** A node's children after the sort (their own subtrees not yet
      sorted). */
  function SortedKids<D>(t: HNode<D>, cmp: (HNode<D>, HNode<D>) -> int): (r: seq<HNode<D>>)
    ensures multiset(r) == multiset(Kids(t))
    ensures forall k | 0 <= k < |r| :: r[k] < t
  {
    var r := InsertionSort(Kids(t), cmp);
    assert forall k | 0 <= k < |r| :: r[k] in multiset(Kids(t));
    r
  }

  /** `sort`: visited in pre-order, every node sorts its children list and
      then its children sort theirs. Nothing but the order of children
      changes. */
  function Sort<D>(t: HNode<D>, cmp: (HNode<D>, HNode<D>) -> int): (r: HNode<D>)
    ensures r.data == t.data && r.value == t.value && r.depth == t.depth && r.height == t.height
    ensures r.children.Null? == t.children.Null? && |Kids(r)| == |Kids(t)|
    ensures forall k | 0 <= k < |Kids(r)| :: Kids(r)[k] == Sort(SortedKids(t, cmp)[k], cmp)
    decreases t
  {
    var s := SortedKids(t, cmp);
    assert |s| == |Kids(t)| by {
      assert |multiset(s)| == |multiset(Kids(t))|;
    }
    if t.children.Null? then t
    else t.(children := List(seq(|s|, k requires 0 <= k < |s| => Sort(s[k], cmp))))
  }

  /** Every children list of a sorted tree is the sorted permutation of
      the original one. */
  lemma SortOrdersChildren<D(!new)>(t: HNode<D>, cmp: (HNode<D>, HNode<D>) -> int)
    requires Antisymmetric(cmp)
    ensures Ordered(SortedKids(t, cmp), cmp)
    ensures multiset(SortedKids(t, cmp)) == multiset(Kids(t))
  {
    InsertionSortOrders(Kids(t), cmp);
  }

  // ---------------------------------------------------------------------
  // ancestors, least common ancestor and path

  /** The loop of `ancestors`: every parent is pushed onto the front. */
  function Climb(node: Addr, acc: seq<Addr>): seq<Addr>
    decreases |node|
  {
    if node == [] then acc else Climb(Parent(node), [Parent(node)] + acc)
  }

  /** The prefixes of `a`, shortest first, `a` itself excluded. */
  function Prefixes(a: Addr): (r: seq<Addr>)
    ensures |r| == |a| && forall k | 0 <= k < |a| :: r[k] == a[..k]
  {
    seq(|a|, k requires 0 <= k < |a| => a[..k])
  }

  lemma {:induction false} ClimbGathers(node: Addr, acc: seq<Addr>)
    ensures Climb(node, acc) == Prefixes(node) + acc
    decreases |node|
  {
    if node != [] {
      var p := Parent(node);
      ClimbGathers(p, [p] + acc);
      PrefixesOfParent(node);
    }
  }

  /** `ancestors` as written: the root first and this node last. */
  function Ancestors(a: Addr): (r: seq<Addr>)
    ensures |r| == |a| + 1
    ensures forall k | 0 <= k <= |a| :: r[k] == a[..k]
  {
    ClimbGathers(a, [a]);
    assert a[..|a|] == a;
    Climb(a, [a])
  }

  /** The documented `ancestors`: this node first, then each parent up to
      the root, every parent appended at the back. */
  function AncestorsUpward(a: Addr): (r: seq<Addr>)
    ensures |r| == |a| + 1
    ensures forall k | 0 <= k <= |a| :: r[k] == a[..|a| - k]
  {
    AppendedClimbGathers(a, [a]);
    assert a[..|a|] == a;
    AppendedClimb(a, [a])
  }

  function AppendedClimb(node: Addr, acc: seq<Addr>): seq<Addr>
    decreases |node|
  {
    if node == [] then acc else AppendedClimb(Parent(node), acc + [Parent(node)])
  }

  lemma {:induction false} AppendedClimbGathers(node: Addr, acc: seq<Addr>)
    ensures AppendedClimb(node, acc) == acc + Reverse(Prefixes(node))
    decreases |node|
  {
    if node != [] {
      var p := Parent(node);
      AppendedClimbGathers(p, acc + [p]);
      PrefixesOfParent(node);
      ReverseAppend(Prefixes(p), [p]);
    }
  }

  lemma PrefixesOfParent(node: Addr)
    requires node != []
    ensures Prefixes(node) == Prefixes(Parent(node)) + [Parent(node)]
  {
    var p := Parent(node);
    assert forall k | 0 <= k < |p| :: p[..k] == node[..k];
  }

  /** The two `ancestors` list the same nodes in opposite orders. */
  lemma AncestorsOrders(a: Addr)
    ensures AncestorsUpward(a) == Reverse(Ancestors(a))
    ensures AncestorsUpward(a)[0] == a && Ancestors(a)[|a|] == a
  {
    assert a[..|a|] == a;
  }

  /** A node with a parent is not at the head of its own `ancestors`, so
      the documented "starting with this node" fails. */
  lemma AncestorsStartAtRoot()
    ensures Ancestors([0])[0] == [] != [0]
    ensures AncestorsUpward([0])[0] == [0]
  {
  }

  /** The loop of `leastCommonAncestor`: the two ancestor lists, root first,
      are polled in step while their heads are the same node. A poll of an
      exhausted list gives `null`. */
  function Walk(xs: seq<Addr>, ys: seq<Addr>, k: nat, c: Option<Addr>): Option<Addr>
    requires k <= |xs| && k <= |ys| && xs[..k] == ys[..k] && xs != ys
    decreases |xs| - k
  {
    var x := if k < |xs| then Some(xs[k]) else None;
    var y := if k < |ys| then Some(ys[k]) else None;
    if x == y then
      assert k < |xs| && k < |ys|;
      assert xs[..k + 1] == xs[..k] + [xs[k]];
      assert ys[..k + 1] == ys[..k] + [ys[k]];
      Walk(xs, ys, k + 1, x)
    else c
  }

  /** `p` is the deepest common prefix of `a` and `b`. */
  predicate DeepestCommon(a: Addr, b: Addr, p: Addr) {
    p <= a && p <= b && (|p| == |a| || |p| == |b| || a[|p|] != b[|p|])
  }

  lemma {:induction false} WalkFindsDeepest(a: Addr, b: Addr, k: nat, c: Option<Addr>)
    requires a != b && k <= |a| + 1 && k <= |b| + 1
    requires k > 0 ==> k - 1 <= |a| && k - 1 <= |b| && a[..k - 1] == b[..k - 1] && c == Some(a[..k - 1])
    requires Ancestors(a)[..k] == Ancestors(b)[..k]
    requires k == 0 ==> c == None
    requires Ancestors(a) != Ancestors(b)
    ensures var r := Walk(Ancestors(a), Ancestors(b), k, c); r.Some? && DeepestCommon(a, b, r.value)
    decreases |a| + 1 - k
  {
    var xs, ys := Ancestors(a), Ancestors(b);
    var x := if k < |xs| then Some(xs[k]) else None;
    var y := if k < |ys| then Some(ys[k]) else None;
    if x == y {
      assert k < |xs| && k < |ys|;
      assert xs[..k + 1] == xs[..k] + [xs[k]];
      assert ys[..k + 1] == ys[..k] + [ys[k]];
      WalkFindsDeepest(a, b, k + 1, x);
    } else {
      assert k > 0 by {
        assert xs[0] == a[..0] == b[..0] == ys[0];
      }
      var p := a[..k - 1];
      if k - 1 < |a| && k - 1 < |b| {
        assert a[..k] != b[..k];
        assert a[..k] == p + [a[k - 1]] && b[..k] == p + [b[k - 1]];
      }
    }
  }

  /** `leastCommonAncestor`: the node itself for equal nodes, otherwise the
      last node where the two root-first ancestor lists agree. */
  function LeastCommonAncestor(a: Addr, b: Addr): (r: Addr)
    ensures DeepestCommon(a, b, r)
  {
    if a == b then a
    else
      assert a[..|a|] == a && b[..|b|] == b;
      assert Ancestors(a) != Ancestors(b);
      WalkFindsDeepest(a, b, 0, None);
      Walk(Ancestors(a), Ancestors(b), 0, None).value
  }

  /** The first loop of `path` as written: from `start` up to `ancestor`,
      each parent pushed onto the front. */
  function ClimbPushed(start: Addr, ancestor: Addr, nodes: seq<Addr>): seq<Addr>
    requires ancestor <= start
    decreases |start|
  {
    if start == ancestor then nodes else ClimbPushed(Parent(start), ancestor, [Parent(start)] + nodes)
  }

  /** The same loop with each parent appended, as the documentation
      describes the path ("starts at this node, ascends"). */
  function ClimbAppended(start: Addr, ancestor: Addr, nodes: seq<Addr>): seq<Addr>
    requires ancestor <= start
    decreases |start|
  {
    if start == ancestor then nodes else ClimbAppended(Parent(start), ancestor, nodes + [Parent(start)])
  }

  /** The second loop of `path`: from `target` up to `ancestor`, each node
      inserted at the fixed position `k`, so the descent reads top-down. */
  function Descend(target: Addr, ancestor: Addr, nodes: seq<Addr>, k: nat): seq<Addr>
    requires ancestor <= target && k <= |nodes|
    decreases |target|
  {
    if target == ancestor then nodes
    else Descend(Parent(target), ancestor, nodes[..k] + [target] + nodes[k..], k)
  }

  /** The nodes strictly below `ancestor` on the way down to `target`. */
  function Down(ancestor: Addr, target: Addr): (r: seq<Addr>)
    requires ancestor <= target
    ensures |r| == |target| - |ancestor|
  {
    seq(|target| - |ancestor|, j requires 0 <= j < |target| - |ancestor| => target[..|ancestor| + 1 + j])
  }

  /** The nodes strictly above `start`, up to and including `ancestor`. */
  function Up(start: Addr, ancestor: Addr): (r: seq<Addr>)
    requires ancestor <= start
    ensures |r| == |start| - |ancestor|
  {
    seq(|start| - |ancestor|, j requires 0 <= j < |start| - |ancestor| => start[..|start| - 1 - j])
  }

  lemma {:induction false} DescendInserts(target: Addr, ancestor: Addr, nodes: seq<Addr>, k: nat)
    requires ancestor <= target && k <= |nodes|
    ensures Descend(target, ancestor, nodes, k) == nodes[..k] + Down(ancestor, target) + nodes[k..]
    decreases |target|
  {
    if target != ancestor {
      var p := Parent(target);
      var nodes' := nodes[..k] + [target] + nodes[k..];
      DescendInserts(p, ancestor, nodes', k);
      assert nodes'[..k] == nodes[..k];
      assert nodes'[k..] == [target] + nodes[k..];
      assert Down(ancestor, target) == Down(ancestor, p) + [target] by {
        assert target[..|target|] == target;
        forall j | 0 <= j < |p| - |ancestor| ensures Down(ancestor, p)[j] == Down(ancestor, target)[j] {
          assert p[..|ancestor| + 1 + j] == target[..|ancestor| + 1 + j];
        }
      }
    }
  }

  lemma {:induction false} ClimbAppendedGathers(start: Addr, ancestor: Addr, nodes: seq<Addr>)
    requires ancestor <= start
    ensures ClimbAppended(start, ancestor, nodes) == nodes + Up(start, ancestor)
    decreases |start|
  {
    if start != ancestor {
      var p := Parent(start);
      ClimbAppendedGathers(p, ancestor, nodes + [p]);
      assert Up(start, ancestor) == [p] + Up(p, ancestor) by {
        forall j | 0 <= j < |p| - |ancestor| ensures Up(p, ancestor)[j] == Up(start, ancestor)[j + 1] {
          assert p[..|p| - 1 - j] == start[..|start| - 2 - j];
        }
      }
    }
  }

  lemma {:induction false} ClimbPushedGathers(start: Addr, ancestor: Addr, nodes: seq<Addr>)
    requires ancestor <= start
    ensures ClimbPushed(start, ancestor, nodes) == Reverse(Up(start, ancestor)) + nodes
    decreases |start|
  {
    if start != ancestor {
      var p := Parent(start);
      ClimbPushedGathers(p, ancestor, [p] + nodes);
      assert Up(start, ancestor) == [p] + Up(p, ancestor) by {
        forall j | 0 <= j < |p| - |ancestor| ensures Up(p, ancestor)[j] == Up(start, ancestor)[j + 1] {
          assert p[..|p| - 1 - j] == start[..|start| - 2 - j];
        }
      }
    }
  }

  /** `path` as written. */
  function PathAsWritten(start: Addr, target: Addr): seq<Addr> {
    var ancestor := LeastCommonAncestor(start, target);
    var up := ClimbPushed(start, ancestor, [start]);
    Descend(target, ancestor, up, |up|)
  }

  /** `path` with the ascent appended. */
  function Path(start: Addr, target: Addr): seq<Addr> {
    var ancestor := LeastCommonAncestor(start, target);
    var up := ClimbAppended(start, ancestor, [start]);
    Descend(target, ancestor, up, |up|)
  }

  /** Nodes one edge apart. */
  predicate Adjacent(a: Addr, b: Addr) {
    (|a| == |b| + 1 && b == a[..|b|]) || (|b| == |a| + 1 && a == b[..|a|])
  }

  /** A walk through the tree from `a` to `b`. */
  predicate WalkFrom(s: seq<Addr>, a: Addr, b: Addr) {
    && |s| > 0 && s[0] == a && s[|s| - 1] == b
    && forall k | 0 <= k < |s| - 1 :: Adjacent(s[k], s[k + 1])
  }

  /** `path` goes from the start node up to the least common ancestor and
      down to the target, one edge at a time, with one node more than the
      tree path has edges. */
  lemma PathIsShortestWalk(start: Addr, target: Addr)
    ensures WalkFrom(Path(start, target), start, target)
    ensures var anc := LeastCommonAncestor(start, target);
      |Path(start, target)| == |start| + |target| - 2 * |anc| + 1 && anc in Path(start, target)
  {
    var anc := LeastCommonAncestor(start, target);
    ClimbAppendedGathers(start, anc, [start]);
    var up := [start] + Up(start, anc);
    DescendInserts(target, anc, up, |up|);
    assert up[..|up|] == up && up[|up|..] == [];
    assert Path(start, target) == up + Down(anc, target);
    UpDownWalk(start, target, anc);
  }

  /** Climbing from `start` to a common ancestor and descending to
      `target` moves one edge at a time and passes the ancestor. */
  lemma UpDownWalk(start: Addr, target: Addr, anc: Addr)
    requires anc <= start && anc <= target
    ensures var s := [start] + Up(start, anc) + Down(anc, target);
      && WalkFrom(s, start, target)
      && |s| == |start| + |target| - 2 * |anc| + 1
      && s[|start| - |anc|] == anc
  {
    var s := [start] + Up(start, anc) + Down(anc, target);
    var n := |start| - |anc|;
    assert s[n] == anc by {
      if n > 0 {
        assert s[n] == Up(start, anc)[n - 1];
      } else {
        assert start == anc;
      }
    }
    forall k | 0 <= k < |s| - 1 ensures Adjacent(s[k], s[k + 1]) {
      if k + 1 <= n {
        assert s[k + 1] == start[..|start| - 1 - k];
        if k > 0 {
          assert s[k] == start[..|start| - k];
        }
      } else {
        assert s[k + 1] == target[..|anc| + 1 + (k - n)];
        if k > n {
          assert s[k] == target[..|anc| + (k - n)];
        }
      }
    }
    if |target| > |anc| {
      assert s[|s| - 1] == target[..|target|] == target;
    } else {
      assert target == anc;
    }
  }

  /** The path between two siblings as written puts the parent first, and
      its first two nodes are not one edge apart; the appended ascent
      gives child, parent, child. */
  lemma PathAsWrittenSkips()
    ensures PathAsWritten([0], [1]) == [[], [0], [1]]
    ensures !WalkFrom(PathAsWritten([0], [1]), [0], [1])
    ensures Path([0], [1]) == [[0], [], [1]]
  {
    var anc := LeastCommonAncestor([0], [1]);
    assert anc == [];
    ClimbPushedGathers([0], anc, [[0]]);
    ClimbAppendedGathers([0], anc, [[0]]);
    assert Up([0], []) == [[]];
    var w := Reverse(Up([0], anc)) + [[0]];
    DescendInserts([1], anc, w, |w|);
    assert Down([], [1]) == [[1]];
    assert w[..|w|] == w && w[|w|..] == [];
    var v := [[0]] + Up([0], anc);
    DescendInserts([1], anc, v, |v|);
    assert v[..|v|] == v && v[|v|..] == [];
  }

  /** `path` as written, for every pair of nodes: the ascent reversed (the
      least common ancestor first, ending just above the start), then the
      start node, then the descent to the target. It starts at the start
      node only when that node is the ancestor itself, and when the target
      is a proper ancestor of the start node it ends at the start node. */
  lemma PathAsWrittenShape(start: Addr, target: Addr)
    ensures var anc := LeastCommonAncestor(start, target);
      PathAsWritten(start, target) == Reverse(Up(start, anc)) + [start] + Down(anc, target)
    ensures var anc := LeastCommonAncestor(start, target);
      var p := PathAsWritten(start, target);
      && |p| == |start| + |target| - 2 * |anc| + 1
      && p[|p| - 1] == (if target == anc then start else target)
      && anc in p
      && (start != anc ==> p[0] == anc)
  {
    var anc := LeastCommonAncestor(start, target);
    ClimbPushedGathers(start, anc, [start]);
    var up := Reverse(Up(start, anc)) + [start];
    DescendInserts(target, anc, up, |up|);
    assert up[..|up|] == up && up[|up|..] == [];
    var p := up + Down(anc, target);
    assert PathAsWritten(start, target) == p;
    var n := |start| - |anc|;
    if target != anc {
      assert p[|p| - 1] == Down(anc, target)[|target| - |anc| - 1] == target[..|target|] == target;
    }
    if start != anc {
      assert p[0] == Up(start, anc)[n - 1] == start[..|anc|] == anc;
    } else {
      assert p[0] == start;
    }
  }

  /** For a node and its parent as target the written path is parent,
      child: it ends where it began instead of at the target, while the
      appended ascent gives child, parent. */
  lemma PathAsWrittenToAncestor()
    ensures PathAsWritten([0], []) == [[], [0]]
    ensures !WalkFrom(PathAsWritten([0], []), [0], [])
    ensures Path([0], []) == [[0], []]
  {
    PathAsWrittenShape([0], []);
    PathIsShortestWalk([0], []);
    assert Up([0], []) == [[]];
    assert Down([], []) == [];
  }

  // ---------------------------------------------------------------------
  // descendants, leaves and links

  /** `descendants` as written: every node of `each` pushed onto the
      front, so the root comes last. */
  function Descendants<D>(t: HNode<D>): (r: seq<Item<D>>)
    ensures |r| > 0 && r[|r| - 1] == Root(t)
  {
    EachOrder(t);
    Pushed(Each(t), [])
  }

  /** The documented `descendants`: the nodes in the order of `each`. */
  function DescendantsInOrder<D>(t: HNode<D>): (r: seq<Item<D>>)
    ensures |r| > 0 && r[0] == Root(t)
    ensures Covers(t, r) && LevelSorted(r)
  {
    EachOrder(t);
    Each(t)
  }

  /** As written, every node comes after its descendants, the reverse of
      the order of `each`; the two lists hold the same nodes. */
  lemma DescendantsReversed<D>(t: HNode<D>)
    ensures Descendants(t) == Reverse(DescendantsInOrder(t))
    ensures forall j, k | 0 <= j < k < |Descendants(t)| :: LevelLess(Descendants(t)[k].at, Descendants(t)[j].at)
  {
    EachOrder(t);
  }

  /** The nodes whose children list is absent. */
  function NullLeaves<D>(s: seq<Item<D>>): (r: seq<Item<D>>)
    ensures forall y | y in r :: y in s && y.node.children.Null?
  {
    if s == [] then []
    else (if s[0].node.children.Null? then [s[0]] else []) + NullLeaves(s[1..])
  }

  /** `leaves` as written: in the pre-order of `eachBefore`, every node
      without a children list is pushed onto the front. */
  function Leaves<D>(t: HNode<D>): seq<Item<D>> {
    Pushed(NullLeaves(EachBefore(t)), [])
  }

  /** The documented `leaves`: in traversal order. */
  function LeavesInOrder<D>(t: HNode<D>): (r: seq<Item<D>>)
    ensures PreSorted(r)
    ensures forall y | y in r :: y.node.children.Null? && Valid(t, y.at) && y.node == At(t, y.at)
  {
    EachBeforeOrder(t);
    NullLeavesSorted(EachBefore(t));
    NullLeaves(EachBefore(t))
  }

  lemma {:induction false} NullLeavesSorted<D>(s: seq<Item<D>>)
    requires PreSorted(s)
    ensures PreSorted(NullLeaves(s))
  {
    if s != [] {
      NullLeavesSorted(s[1..]);
      var r := NullLeaves(s[1..]);
      forall y | y in r ensures PreLess(s[0].at, y.at) {
        var k :| 0 <= k < |s[1..]| && s[1..][k] == y;
        assert s[k + 1] == y;
      }
    }
  }

  lemma {:induction false} NullLeavesComplete<D>(s: seq<Item<D>>, k: nat)
    requires k < |s| && s[k].node.children.Null?
    ensures s[k] in NullLeaves(s)
  {
    if k > 0 {
      NullLeavesComplete(s[1..], k - 1);
    }
  }

  /** Every node without a children list is among the leaves. */
  lemma LeavesComplete<D>(t: HNode<D>, a: Addr)
    requires Valid(t, a) && At(t, a).children.Null?
    ensures Item(a, At(t, a)) in LeavesInOrder(t)
  {
    EachBeforeOrder(t);
    var s := EachBefore(t);
    var k :| 0 <= k < |s| && Ats(s)[k] == a;
    assert s[k] == Item(a, At(t, a));
    NullLeavesComplete(s, k);
  }

  /** A root with two leaf children. */
  function TwoLeaves(): HNode<int> {
    HNode(0, None, 0, 1, List([HNode(1, None, 1, 0, Null), HNode(2, None, 1, 0, Null)]))
  }

  lemma TwoLeavesPreOrder()
    ensures EachBefore(TwoLeaves()) == [Root(TwoLeaves()), Item([0], Kids(TwoLeaves())[0]), Item([1], Kids(TwoLeaves())[1])]
  {
    var x := Root(TwoLeaves());
    var a, b := Children(x)[0], Children(x)[1];
    assert PreFrom(a, 0) == [] && PreFrom(b, 0) == [];
    assert PreOrder(a) == [a] && PreOrder(b) == [b];
    assert PreFrom(x, 2) == [];
    assert PreFrom(x, 1) == [b];
    assert PreFrom(x, 0) == [a, b];
    assert PreOrder(x) == [x, a, b];
    assert a == Item([0], Kids(TwoLeaves())[0]);
    assert b == Item([1], Kids(TwoLeaves())[1]);
  }

  /** Two leaves under one root come out of `leaves` as written in the
      reverse of traversal order. */
  lemma LeavesReversed()
    ensures var t := TwoLeaves();
      && LeavesInOrder(t) == [Item([0], Kids(t)[0]), Item([1], Kids(t)[1])]
      && Leaves(t) == [Item([1], Kids(t)[1]), Item([0], Kids(t)[0])]
  {
    var t := TwoLeaves();
    TwoLeavesPreOrder();
    var x, a, b := Root(t), Item([0], Kids(t)[0]), Item([1], Kids(t)[1]);
    NullLeavesUnderRoot(x, a, b);
    PushedPair(a, b);
  }

  lemma NullLeavesUnderRoot<D>(x: Item<D>, a: Item<D>, b: Item<D>)
    requires x.node.children.List? && a.node.children.Null? && b.node.children.Null?
    ensures NullLeaves([x, a, b]) == [a, b]
  {
    assert [b][1..] == [];
    assert NullLeaves([b]) == [b];
    assert [a, b][1..] == [b];
    assert NullLeaves([a, b]) == [a, b];
    assert [x, a, b][1..] == [a, b];
  }

  lemma PushedPair<T>(a: T, b: T)
    ensures Pushed([a, b], []) == [b, a]
  {
    assert Reverse([a, b]) == [b, a] by {
      assert [a, b][1..] == [b];
    }
  }

  /** The number of leaves equals `count`'s value when no node has an
      empty (rather than absent) children list. */
  lemma {:induction false} NullLeavesAreBare<D>(s: seq<Item<D>>)
    requires forall k | 0 <= k < |s| :: s[k].node.children.List? ==> |s[k].node.children.nodes| > 0
    ensures |NullLeaves(s)| == Bare(s)
  {
    if s != [] {
      NullLeavesAreBare(s[1..]);
    }
  }

  lemma CountIsNumberOfLeaves<D>(t: HNode<D>)
    requires forall a | Valid(t, a) :: At(t, a).children.List? ==> |At(t, a).children.nodes| > 0
    ensures Count(t).value == Some(|Leaves(t)| as real)
  {
    CountIsLeafCount(t);
    EachBeforeOrder(t);
    NullLeavesAreBare(EachBefore(t));
  }

  /** A parent-to-child link. */
  datatype Link<D> = Link(source: Item<D>, target: Item<D>)

  /** The links into the nodes of `s` other than the root. */
  function LinksInto<D>(t: HNode<D>, s: seq<Item<D>>): (r: seq<Link<D>>)
    requires forall y | y in s :: Valid(t, y.at) && y.node == At(t, y.at)
    ensures forall l | l in r :: l.target in s && l.target.at != []
    ensures forall l | l in r :: l.target.at != [] && l.source.at == Parent(l.target.at) && Valid(t, l.source.at) && l.source.node == At(t, l.source.at)
  {
    if s == [] then []
    else
      var y := s[0];
      var rest := LinksInto(t, s[1..]);
      if y.at == [] then rest
      else
        ValidParent(t, y.at);
        [Link(Item(Parent(y.at), At(t, Parent(y.at))), y)] + rest
  }

  lemma {:induction false} ValidParent<D>(t: HNode<D>, a: Addr)
    requires Valid(t, a) && a != []
    ensures Valid(t, Parent(a)) && a[|a| - 1] < |Kids(At(t, Parent(a)))|
    ensures At(t, a) == Kids(At(t, Parent(a)))[a[|a| - 1]]
    decreases |a|
  {
    if |a| > 1 {
      assert Parent(a)[1..] == Parent(a[1..]);
      ValidParent(Kids(t)[a[0]], a[1..]);
    }
  }

  /** `links`: visited by `each`, every node but the root pushes the link
      from its parent onto the front. */
  function Links<D>(t: HNode<D>): (r: seq<Link<D>>)
    ensures forall l | l in r :: Valid(t, l.target.at) && l.target.node == At(t, l.target.at)
    ensures forall l | l in r :: l.target.at != [] && l.source.at == Parent(l.target.at) && Valid(t, l.source.at) && l.source.node == At(t, l.source.at)
  {
    EachOrder(t);
    Pushed(LinksInto(t, Each(t)), [])
  }

  lemma {:induction false} LinksIntoComplete<D>(t: HNode<D>, s: seq<Item<D>>, k: nat)
    requires forall y | y in s :: Valid(t, y.at) && y.node == At(t, y.at)
    requires k < |s| && s[k].at != []
    ensures exists l | l in LinksInto(t, s) :: l.target == s[k]
  {
    if k > 0 {
      LinksIntoComplete(t, s[1..], k - 1);
    } else {
      assert LinksInto(t, s)[0].target == s[0];
    }
  }

  lemma InReverse<T>(s: seq<T>, x: T)
    requires x in s
    ensures x in Reverse(s)
  {
    var i :| 0 <= i < |s| && s[i] == x;
    assert Reverse(s)[|s| - 1 - i] == x;
  }

  /** Every node but the root is the target of a link. */
  lemma LinksComplete<D>(t: HNode<D>, a: Addr)
    requires Valid(t, a) && a != []
    ensures exists l | l in Links(t) :: l.target.at == a
  {
    EachOrder(t);
    var s := Each(t);
    var k :| 0 <= k < |s| && Ats(s)[k] == a;
    LinksIntoComplete(t, s, k);
    var links := LinksInto(t, s);
    var l :| l in links && l.target == s[k];
    InReverse(links, l);
    assert Links(t) == Reverse(links) + [];
  }

  /** No two links into distinct positions of a repetition-free list
      share a target. */
  lemma {:induction false} LinksIntoOnce<D>(t: HNode<D>, s: seq<Item<D>>)
    requires forall y | y in s :: Valid(t, y.at) && y.node == At(t, y.at)
    requires Once(s)
    ensures forall i, j | 0 <= i < j < |LinksInto(t, s)| :: LinksInto(t, s)[i].target.at != LinksInto(t, s)[j].target.at
  {
    if s != [] {
      var rest := LinksInto(t, s[1..]);
      assert Once(s[1..]) by {
        forall j, k | 0 <= j < k < |s[1..]| ensures s[1..][j].at != s[1..][k].at {
          assert s[1..][j] == s[j + 1] && s[1..][k] == s[k + 1];
        }
      }
      LinksIntoOnce(t, s[1..]);
      if s[0].at != [] {
        forall l | l in rest ensures l.target.at != s[0].at {
          var k :| 0 < k < |s| && s[k] == l.target;
        }
      }
    }
  }

  /** Reversing a list of links keeps its targets pairwise distinct. */
  lemma ReverseTargetsDistinct<D>(links: seq<Link<D>>)
    requires forall i, j | 0 <= i < j < |links| :: links[i].target.at != links[j].target.at
    ensures forall i, j | 0 <= i < j < |Reverse(links)| :: Reverse(links)[i].target.at != Reverse(links)[j].target.at
  {
    var r := Reverse(links);
    forall i, j | 0 <= i < j < |r| ensures r[i].target.at != r[j].target.at {
      assert r[i] == links[|links| - 1 - i] && r[j] == links[|links| - 1 - j];
    }
  }

  /** `links` holds at most one link into each node, so with
      `LinksComplete` exactly one into every node but the root. */
  lemma LinksOnce<D>(t: HNode<D>)
    ensures forall i, j | 0 <= i < j < |Links(t)| :: Links(t)[i].target.at != Links(t)[j].target.at
  {
    EachOrder(t);
    var links := LinksInto(t, Each(t));
    LinksIntoOnce(t, Each(t));
    ReverseTargetsDistinct(links);
    assert Links(t) == Reverse(links) + [];
  }
}
