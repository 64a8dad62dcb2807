/** The node tree of AbstractNode and its three traversals. A node is
    identified by its address, the child indices leading to it from the
    root; the parent of `a` is `a[..|a| - 1]`. Each traversal is modelled
    as the list loop the source runs and proved equal to its recursive
    definition. */
module Hierarchies {
  import opened Wrappers

  type Addr = seq<nat>

  /** A hierarchy node: its datum, value (`null` is `None`), depth,
      height and children. The children list may be `null`, empty or
      not. */
  datatype HNode<D> = HNode(data: D, value: Option<real>, depth: int, height: int, children: Offspring<D>)

  datatype Offspring<D> = Null | List(nodes: seq<HNode<D>>)

  /** The children, an absent list read as empty. */
  function Kids<D>(t: HNode<D>): (r: seq<HNode<D>>)
    ensures forall i | 0 <= i < |r| :: r[i] < t
  {
    if t.children.List? then t.children.nodes else []
  }

  /** The parent of a non-root node. */
  function Parent(a: Addr): (r: Addr)
    requires a != []
    ensures r < a && |r| == |a| - 1
  {
    a[..|a| - 1]
  }

  predicate Valid<D>(t: HNode<D>, a: Addr)
    decreases |a|
  {
    |a| == 0 || (a[0] < |Kids(t)| && Valid(Kids(t)[a[0]], a[1..]))
  }

  /** The node at address `a`. */
  function At<D>(t: HNode<D>, a: Addr): HNode<D>
    requires Valid(t, a)
    decreases |a|
  {
    if |a| == 0 then t else At(Kids(t)[a[0]], a[1..])
  }

  lemma {:induction false} ValidStep<D>(t: HNode<D>, a: Addr, i: nat)
    requires Valid(t, a)
    ensures Valid(t, a + [i]) <==> i < |Kids(At(t, a))|
    ensures i < |Kids(At(t, a))| ==> At(t, a + [i]) == Kids(At(t, a))[i]
    decreases |a|
  {
    if |a| > 0 {
      assert (a + [i])[1..] == a[1..] + [i];
      ValidStep(Kids(t)[a[0]], a[1..], i);
    }
  }

  /** A node together with its address. */
  datatype Item<D> = Item(at: Addr, node: HNode<D>)

  function Root<D>(t: HNode<D>): Item<D> {
    Item([], t)
  }

  /** The children of a node, each with its address. */
  function Children<D>(x: Item<D>): (r: seq<Item<D>>)
    ensures |r| == |Kids(x.node)|
    ensures forall i | 0 <= i < |r| :: r[i] == Item(x.at + [i], Kids(x.node)[i])
  {
    seq(|Kids(x.node)|, i requires 0 <= i < |Kids(x.node)| => Item(x.at + [i], Kids(x.node)[i]))
  }

  function Ats<D>(s: seq<Item<D>>): (r: seq<Addr>)
    ensures |r| == |s| && forall k | 0 <= k < |s| :: r[k] == s[k].at
  {
    seq(|s|, k requires 0 <= k < |s| => s[k].at)
  }

  function Reverse<T>(s: seq<T>): (r: seq<T>)
    ensures |r| == |s|
    ensures forall k | 0 <= k < |s| :: r[k] == s[|s| - 1 - k]
  {
    if s == [] then [] else Reverse(s[1..]) + [s[0]]
  }

  lemma ReverseAppend<T>(a: seq<T>, b: seq<T>)
    ensures Reverse(a + b) == Reverse(b) + Reverse(a)
  {
  }

  lemma ReverseReverse<T>(s: seq<T>)
    ensures Reverse(Reverse(s)) == s
  {
  }

  // ---------------------------------------------------------------------
  // Sizes

  function Size<D>(t: HNode<D>): nat
    decreases t, 1
  {
    1 + SizeFrom(t, 0)
  }

  function SizeFrom<D>(t: HNode<D>, i: nat): nat
    decreases t, 0, |Kids(t)| - i
  {
    if i >= |Kids(t)| then 0 else Size(Kids(t)[i]) + SizeFrom(t, i + 1)
  }

  /** The number of nodes in the subtrees of a list of items. */
  function Weight<D>(s: seq<Item<D>>): nat {
    if s == [] then 0 else Size(s[0].node) + Weight(s[1..])
  }

  lemma {:induction false} WeightAppend<D>(a: seq<Item<D>>, b: seq<Item<D>>)
    ensures Weight(a + b) == Weight(a) + Weight(b)
  {
    if a != [] {
      assert (a + b)[1..] == a[1..] + b;
      WeightAppend(a[1..], b);
    } else {
      assert a + b == b;
    }
  }

  lemma {:induction false} WeightChildren<D>(x: Item<D>, i: nat)
    requires i <= |Kids(x.node)|
    ensures Weight(Children(x)[i..]) == SizeFrom(x.node, i)
    decreases |Kids(x.node)| - i
  {
    if i < |Kids(x.node)| {
      assert Children(x)[i..][1..] == Children(x)[i + 1..];
      WeightChildren(x, i + 1);
    }
  }

  /** The children of an item weigh one less than the item. */
  lemma WeightOfChildren<D>(x: Item<D>)
    ensures Weight(Children(x)) + 1 == Size(x.node)
  {
    WeightChildren(x, 0);
    assert Children(x)[0..] == Children(x);
  }

  lemma {:induction false} WeightReverse<D>(s: seq<Item<D>>)
    ensures Weight(Reverse(s)) == Weight(s)
  {
    if s != [] {
      WeightReverse(s[1..]);
      WeightAppend(Reverse(s[1..]), [s[0]]);
    }
  }

  // ---------------------------------------------------------------------
  // Address orders

  /** Pre-order: an ancestor before its descendants, siblings (and their
      subtrees) left to right. */
  predicate PreLess(a: Addr, b: Addr) {
    |b| > 0 && (|a| == 0 || a[0] < b[0] || (a[0] == b[0] && PreLess(a[1..], b[1..])))
  }

  /** Post-order: descendants before their ancestor, siblings left to
      right. */
  predicate PostLess(a: Addr, b: Addr) {
    |a| > 0 && (|b| == 0 || a[0] < b[0] || (a[0] == b[0] && PostLess(a[1..], b[1..])))
  }

  /** Breadth-first order: shallower first, then left to right. */
  predicate LevelLess(a: Addr, b: Addr) {
    |a| < |b| || (|a| == |b| && PreLess(a, b))
  }

  lemma {:induction false} PreLessIrreflexive(a: Addr)
    ensures !PreLess(a, a)
  {
    if |a| > 0 {
      PreLessIrreflexive(a[1..]);
    }
  }

  lemma {:induction false} PostLessIrreflexive(a: Addr)
    ensures !PostLess(a, a)
  {
    if |a| > 0 {
      PostLessIrreflexive(a[1..]);
    }
  }

  /** Two addresses that first differ at position `n`. */
  predicate Diverge(a: Addr, b: Addr, n: nat) {
    n < |a| && n < |b| && a[..n] == b[..n] && a[n] < b[n]
  }

  lemma {:induction false} PreLessDiverge(a: Addr, b: Addr, n: nat)
    requires Diverge(a, b, n)
    ensures PreLess(a, b) && PostLess(a, b)
    decreases n
  {
    if n > 0 {
      assert a[0] == a[..n][0] == b[..n][0] == b[0];
      assert a[1..][..n - 1] == a[..n][1..];
      assert b[1..][..n - 1] == b[..n][1..];
      PreLessDiverge(a[1..], b[1..], n - 1);
    }
  }

  lemma {:induction false} PreLessPrefix(a: Addr, b: Addr)
    requires a < b
    ensures PreLess(a, b) && PostLess(b, a)
  {
    if |a| > 0 {
      assert a[1..] < b[1..];
      PreLessPrefix(a[1..], b[1..]);
    }
  }

  /** Addresses below `p + [i]`, for some `i >= lo`. */
  predicate Below(p: Addr, lo: nat, a: Addr) {
    |p| < |a| && p <= a && a[|p|] >= lo
  }

  /** An address below child `i` of `p` precedes, in both orders, any
      address below a later child of `p`. */
  lemma BelowEarlier(p: Addr, i: nat, a: Addr, b: Addr)
    requires Below(p, i, a) && a[|p|] == i && Below(p, i + 1, b)
    ensures PreLess(a, b) && PostLess(a, b)
  {
    assert a[..|p|] == p == b[..|p|];
    PreLessDiverge(a, b, |p|);
  }

  // ---------------------------------------------------------------------
  // Pre-order and `eachBefore`

  /** The recursive pre-order: the node, then each child's pre-order. */
  function PreOrder<D>(x: Item<D>): seq<Item<D>>
    decreases x.node, 1
  {
    [x] + PreFrom(x, 0)
  }

  function PreFrom<D>(x: Item<D>, i: nat): seq<Item<D>>
    decreases x.node, 0, |Kids(x.node)| - i
  {
    if i >= |Kids(x.node)| then [] else PreOrder(Children(x)[i]) + PreFrom(x, i + 1)
  }

  /** The pre-orders of a list of items, one after the other. */
  function PreAll<D>(s: seq<Item<D>>): seq<Item<D>> {
    if s == [] then [] else PreOrder(s[0]) + PreAll(s[1..])
  }

  lemma {:induction false} PreAllAppend<D>(a: seq<Item<D>>, b: seq<Item<D>>)
    ensures PreAll(a + b) == PreAll(a) + PreAll(b)
  {
    if a != [] {
      assert (a + b)[1..] == a[1..] + b;
      PreAllAppend(a[1..], b);
    } else {
      assert a + b == b;
    }
  }

  lemma {:induction false} PreAllChildren<D>(x: Item<D>, i: nat)
    requires i <= |Kids(x.node)|
    ensures PreAll(Children(x)[i..]) == PreFrom(x, i)
    decreases |Kids(x.node)| - i
  {
    if i < |Kids(x.node)| {
      assert Children(x)[i..][1..] == Children(x)[i + 1..];
      PreAllChildren(x, i + 1);
    }
  }

  lemma PreOrderUnfold<D>(x: Item<D>)
    ensures PreOrder(x) == [x] + PreAll(Children(x))
  {
    PreAllChildren(x, 0);
    assert Children(x)[0..] == Children(x);
  }

  /** The loop of `eachBefore`: take the head of the list, visit it, put
      its children in front in their order. */
  function BeforeLoop<D>(stack: seq<Item<D>>): seq<Item<D>>
    decreases Weight(stack)
  {
    if stack == [] then []
    else
      var x := stack[0];
      WeightAppend(Children(x), stack[1..]);
      WeightOfChildren(x);
      [x] + BeforeLoop(Children(x) + stack[1..])
  }

  lemma {:induction false} BeforeLoopIsPreOrder<D>(stack: seq<Item<D>>)
    ensures BeforeLoop(stack) == PreAll(stack)
    decreases Weight(stack)
  {
    if stack != [] {
      var x := stack[0];
      WeightAppend(Children(x), stack[1..]);
      WeightOfChildren(x);
      BeforeLoopIsPreOrder(Children(x) + stack[1..]);
      PreAllAppend(Children(x), stack[1..]);
      PreOrderUnfold(x);
    }
  }

  /** `eachBefore`: the nodes in the order the callback receives them,
      which is the pre-order. */
  function EachBefore<D>(t: HNode<D>): (r: seq<Item<D>>)
    ensures r == PreOrder(Root(t))
  {
    BeforeLoopIsPreOrder([Root(t)]);
    assert PreAll([Root(t)]) == PreOrder(Root(t)) + PreAll([]);
    BeforeLoop([Root(t)])
  }

  /** Every item of a pre-order lies below its start, at a valid address,
      and carries the node found there. */
  ghost predicate Inside<D>(x: Item<D>, y: Item<D>) {
    x.at <= y.at && Valid(x.node, y.at[|x.at|..]) && y.node == At(x.node, y.at[|x.at|..])
  }

  /** A child's items lie inside its parent. */
  lemma InsideChild<D>(x: Item<D>, i: nat, y: Item<D>)
    requires i < |Kids(x.node)| && Inside(Children(x)[i], y)
    ensures Inside(x, y) && Below(x.at, i, y.at) && y.at[|x.at|] == i
  {
    var c := Children(x)[i];
    var r := y.at[|c.at|..];
    assert y.at[|x.at|..] == [i] + r;
    assert ([i] + r)[1..] == r;
  }

  lemma {:induction false} PreOrderInside<D>(x: Item<D>)
    ensures forall y | y in PreOrder(x) :: Inside(x, y)
    ensures forall k | 1 <= k < |PreOrder(x)| :: Below(x.at, 0, PreOrder(x)[k].at)
    decreases x.node, 1
  {
    assert x.at[|x.at|..] == [];
    PreFromInside(x, 0);
  }

  lemma {:induction false} PreFromInside<D>(x: Item<D>, i: nat)
    ensures forall y | y in PreFrom(x, i) :: Inside(x, y) && Below(x.at, i, y.at)
    decreases x.node, 0, |Kids(x.node)| - i
  {
    if i < |Kids(x.node)| {
      var c := Children(x)[i];
      PreOrderInside(c);
      PreFromInside(x, i + 1);
      forall y | y in PreOrder(c) ensures Inside(x, y) && Below(x.at, i, y.at) {
        InsideChild(x, i, y);
      }
    }
  }

  /** Every valid address appears in the pre-order. */
  lemma {:induction false} PreOrderComplete<D>(x: Item<D>, r: Addr)
    requires Valid(x.node, r)
    ensures x.at + r in Ats(PreOrder(x))
    decreases x.node, 1
  {
    if r == [] {
      assert Ats(PreOrder(x))[0] == x.at + r;
    } else {
      PreFromComplete(x, 0, r);
      assert Ats(PreOrder(x)) == [x.at] + Ats(PreFrom(x, 0));
    }
  }

  lemma {:induction false} PreFromComplete<D>(x: Item<D>, i: nat, r: Addr)
    requires Valid(x.node, r) && r != [] && i <= r[0]
    ensures x.at + r in Ats(PreFrom(x, i))
    decreases x.node, 0, |Kids(x.node)| - i
  {
    var c := Children(x)[i];
    assert Ats(PreFrom(x, i)) == Ats(PreOrder(c)) + Ats(PreFrom(x, i + 1));
    if r[0] == i {
      PreOrderComplete(c, r[1..]);
      assert c.at + r[1..] == x.at + r;
    } else {
      PreFromComplete(x, i + 1, r);
    }
  }

  /** Increasing in an order, pairwise. */
  predicate PreSorted<D>(s: seq<Item<D>>) {
    forall j, k | 0 <= j < k < |s| :: PreLess(s[j].at, s[k].at)
  }

  predicate PostSorted<D>(s: seq<Item<D>>) {
    forall j, k | 0 <= j < k < |s| :: PostLess(s[j].at, s[k].at)
  }

  predicate LevelSorted<D>(s: seq<Item<D>>) {
    forall j, k | 0 <= j < k < |s| :: LevelLess(s[j].at, s[k].at)
  }

  lemma {:induction false} PreOrderSorted<D>(x: Item<D>)
    ensures PreSorted(PreOrder(x))
    decreases x.node, 1
  {
    PreFromSorted(x, 0);
    PreOrderInside(x);
    var s := PreOrder(x);
    forall k | 1 <= k < |s| ensures PreLess(s[0].at, s[k].at) {
      assert x.at < s[k].at;
      PreLessPrefix(x.at, s[k].at);
    }
  }

  lemma {:induction false} PreFromSorted<D>(x: Item<D>, i: nat)
    ensures PreSorted(PreFrom(x, i))
    decreases x.node, 0, |Kids(x.node)| - i
  {
    if i < |Kids(x.node)| {
      var c := Children(x)[i];
      PreOrderSorted(c);
      PreFromSorted(x, i + 1);
      PreOrderInside(c);
      PreFromInside(x, i + 1);
      var a, b := PreOrder(c), PreFrom(x, i + 1);
      forall j, k | 0 <= j < |a| && 0 <= k < |b| ensures PreLess(a[j].at, b[k].at) {
        InsideChild(x, i, a[j]);
        BelowEarlier(x.at, i, a[j].at, b[k].at);
      }
    }
  }

  // ---------------------------------------------------------------------
  // Post-order and `eachAfter`

  /** The recursive post-order: each child's post-order, then the node. */
  function PostOrder<D>(x: Item<D>): seq<Item<D>>
    decreases x.node, 1
  {
    PostFrom(x, 0) + [x]
  }

  function PostFrom<D>(x: Item<D>, i: nat): seq<Item<D>>
    decreases x.node, 0, |Kids(x.node)| - i
  {
    if i >= |Kids(x.node)| then [] else PostOrder(Children(x)[i]) + PostFrom(x, i + 1)
  }

  /** The post-orders of a list, the LAST item's first. */
  function PostAllReversed<D>(s: seq<Item<D>>): seq<Item<D>> {
    if s == [] then [] else PostAllReversed(s[1..]) + PostOrder(s[0])
  }

  lemma {:induction false} PostAllReversedAppend<D>(a: seq<Item<D>>, b: seq<Item<D>>)
    ensures PostAllReversed(a + b) == PostAllReversed(b) + PostAllReversed(a)
  {
    if a != [] {
      assert (a + b)[1..] == a[1..] + b;
      PostAllReversedAppend(a[1..], b);
    } else {
      assert a + b == b;
    }
  }

  /** The children pushed one by one end up last-first; their reversed
      post-orders are then in child order. */
  lemma {:induction false} PostChildren<D>(x: Item<D>, i: nat)
    requires i <= |Kids(x.node)|
    ensures PostAllReversed(Reverse(Children(x)[i..])) == PostFrom(x, i)
    decreases |Kids(x.node)| - i
  {
    if i < |Kids(x.node)| {
      var c := Children(x)[i..];
      var rest := Children(x)[i + 1..];
      var y := Children(x)[i];
      assert c == [y] + rest;
      ReverseAppend([y], rest);
      assert Reverse([y]) == [y];
      assert Reverse(c) == Reverse(rest) + [y];
      PostAllReversedAppend(Reverse(rest), [y]);
      assert PostAllReversed([y]) == PostOrder(y) by {
        assert [y][1..] == [];
      }
      PostChildren(x, i + 1);
      assert PostFrom(x, i) == PostOrder(y) + PostFrom(x, i + 1);
    }
  }

  /** The first loop of `eachAfter`: take the head, record it, push the
      children to the front one by one (so the last child comes first). */
  function AfterLoop<D>(stack: seq<Item<D>>): seq<Item<D>>
    decreases Weight(stack)
  {
    if stack == [] then []
    else
      var x := stack[0];
      WeightReverse(Children(x));
      WeightAppend(Reverse(Children(x)), stack[1..]);
      WeightOfChildren(x);
      [x] + AfterLoop(Reverse(Children(x)) + stack[1..])
  }

  /** One round of the first loop: the head is recorded, and its children
      go to the front last-first. */
  lemma AfterLoopUnfold<D>(x: Item<D>, rest: seq<Item<D>>)
    ensures AfterLoop([x] + rest) == [x] + AfterLoop(Reverse(Children(x)) + rest)
  {
    assert ([x] + rest)[0] == x && ([x] + rest)[1..] == rest;
  }

  lemma PostAllReversedCons<D>(x: Item<D>, rest: seq<Item<D>>)
    ensures PostAllReversed([x] + rest) == PostAllReversed(rest) + PostOrder(x)
  {
    assert ([x] + rest)[0] == x && ([x] + rest)[1..] == rest;
  }

  /** The children's post-orders, read off the reversed children, followed
      by the node itself are the node's post-order. */
  lemma PostOrderOfReversed<D>(x: Item<D>)
    ensures PostAllReversed(Reverse(Children(x))) + [x] == PostOrder(x)
  {
    PostChildren(x, 0);
    assert Children(x)[0..] == Children(x);
  }

  lemma {:induction false} AfterLoopIsPostOrder<D>(stack: seq<Item<D>>)
    ensures Reverse(AfterLoop(stack)) == PostAllReversed(stack)
    decreases Weight(stack)
  {
    if stack != [] {
      var x, rest := stack[0], stack[1..];
      assert stack == [x] + rest;
      var ch := Reverse(Children(x));
      WeightReverse(Children(x));
      WeightAppend(ch, rest);
      WeightOfChildren(x);
      var tail := AfterLoop(ch + rest);
      AfterLoopIsPostOrder(ch + rest);
      AfterLoopUnfold(x, rest);
      ReverseAppend([x], tail);
      assert Reverse([x]) == [x];
      PostAllReversedAppend(ch, rest);
      PostOrderOfReversed(x);
      PostAllReversedCons(x, rest);
      calc {
        Reverse(AfterLoop(stack));
        Reverse([x] + tail);
        Reverse(tail) + [x];
        PostAllReversed(rest) + PostAllReversed(ch) + [x];
        PostAllReversed(rest) + PostOrder(x);
        PostAllReversed(stack);
      }
    }
  }

  /** `eachAfter`: the recorded list is a stack, so the callback receives
      the nodes in the reverse of the first loop's order, which is the
      post-order. */
  function EachAfter<D>(t: HNode<D>): (r: seq<Item<D>>)
    ensures r == PostOrder(Root(t))
  {
    AfterLoopIsPostOrder([Root(t)]);
    assert PostAllReversed([Root(t)]) == PostAllReversed([]) + PostOrder(Root(t));
    Reverse(AfterLoop([Root(t)]))
  }

  lemma {:induction false} PostOrderInside<D>(x: Item<D>)
    ensures forall y | y in PostOrder(x) :: Inside(x, y)
    ensures forall k | 0 <= k < |PostOrder(x)| - 1 :: Below(x.at, 0, PostOrder(x)[k].at)
    decreases x.node, 1
  {
    assert x.at[|x.at|..] == [];
    PostFromInside(x, 0);
  }

  lemma {:induction false} PostFromInside<D>(x: Item<D>, i: nat)
    ensures forall y | y in PostFrom(x, i) :: Inside(x, y) && Below(x.at, i, y.at)
    decreases x.node, 0, |Kids(x.node)| - i
  {
    if i < |Kids(x.node)| {
      var c := Children(x)[i];
      PostOrderInside(c);
      PostFromInside(x, i + 1);
      forall y | y in PostOrder(c) ensures Inside(x, y) && Below(x.at, i, y.at) {
        InsideChild(x, i, y);
      }
    }
  }

  lemma {:induction false} PostOrderComplete<D>(x: Item<D>, r: Addr)
    requires Valid(x.node, r)
    ensures x.at + r in Ats(PostOrder(x))
    decreases x.node, 1
  {
    assert Ats(PostOrder(x)) == Ats(PostFrom(x, 0)) + [x.at];
    if r != [] {
      PostFromComplete(x, 0, r);
    } else {
      assert x.at + r == Ats(PostOrder(x))[|PostOrder(x)| - 1];
    }
  }

  lemma {:induction false} PostFromComplete<D>(x: Item<D>, i: nat, r: Addr)
    requires Valid(x.node, r) && r != [] && i <= r[0]
    ensures x.at + r in Ats(PostFrom(x, i))
    decreases x.node, 0, |Kids(x.node)| - i
  {
    var c := Children(x)[i];
    assert Ats(PostFrom(x, i)) == Ats(PostOrder(c)) + Ats(PostFrom(x, i + 1));
    if r[0] == i {
      PostOrderComplete(c, r[1..]);
      assert c.at + r[1..] == x.at + r;
    } else {
      PostFromComplete(x, i + 1, r);
    }
  }

  lemma {:induction false} PostOrderSorted<D>(x: Item<D>)
    ensures PostSorted(PostOrder(x))
    decreases x.node, 1
  {
    PostFromSorted(x, 0);
    PostOrderInside(x);
    var s := PostOrder(x);
    forall k | 0 <= k < |s| - 1 ensures PostLess(s[k].at, x.at) {
      assert x.at < s[k].at;
      PreLessPrefix(x.at, s[k].at);
    }
  }

  lemma {:induction false} PostFromSorted<D>(x: Item<D>, i: nat)
    ensures PostSorted(PostFrom(x, i))
    decreases x.node, 0, |Kids(x.node)| - i
  {
    if i < |Kids(x.node)| {
      var c := Children(x)[i];
      PostOrderSorted(c);
      PostFromSorted(x, i + 1);
      PostOrderInside(c);
      PostFromInside(x, i + 1);
      var a, b := PostOrder(c), PostFrom(x, i + 1);
      forall j, k | 0 <= j < |a| && 0 <= k < |b| ensures PostLess(a[j].at, b[k].at) {
        InsideChild(x, i, a[j]);
        BelowEarlier(x.at, i, a[j].at, b[k].at);
      }
    }
  }

  // ---------------------------------------------------------------------
  // Breadth-first order and `each`

  /** The children of every item of a level, level order kept. */
  function NextLevel<D>(s: seq<Item<D>>): seq<Item<D>> {
    if s == [] then [] else Children(s[0]) + NextLevel(s[1..])
  }

  lemma {:induction false} WeightNextLevel<D>(s: seq<Item<D>>)
    ensures Weight(NextLevel(s)) + |s| == Weight(s)
  {
    if s != [] {
      WeightNextLevel(s[1..]);
      WeightAppend(Children(s[0]), NextLevel(s[1..]));
      WeightOfChildren(s[0]);
    }
  }

  /** The inner loop of `each`: every node of the current level in turn
      pushes its children, first to last, onto the front of `next`. */
  function PushChildren<D>(current: seq<Item<D>>, next: seq<Item<D>>): seq<Item<D>> {
    if current == [] then next else PushChildren(current[1..], Reverse(Children(current[0])) + next)
  }

  lemma {:induction false} PushChildrenReverses<D>(current: seq<Item<D>>, next: seq<Item<D>>)
    ensures PushChildren(current, next) == Reverse(NextLevel(current)) + next
  {
    if current != [] {
      PushChildrenReverses(current[1..], Reverse(Children(current[0])) + next);
      ReverseAppend(Children(current[0]), NextLevel(current[1..]));
    }
  }

  /** The outer loop of `each`: the collected list, reversed, is the level
      to visit; the loop goes on while that level has children. */
  function EachLoop<D>(next: seq<Item<D>>): seq<Item<D>>
    requires next != []
    decreases Weight(next)
  {
    var current := Reverse(next);
    var after := PushChildren(current, []);
    PushChildrenReverses(current, []);
    WeightReverse(next);
    WeightReverse(NextLevel(current));
    WeightNextLevel(current);
    assert after == Reverse(NextLevel(current));
    current + (if after == [] then [] else EachLoop(after))
  }

  /** One round of `each` visits a level and continues with the next one. */
  lemma EachLoopLevel<D>(level: seq<Item<D>>)
    requires level != []
    ensures EachLoop(Reverse(level)) == level + (if NextLevel(level) == [] then [] else EachLoop(Reverse(NextLevel(level))))
  {
    ReverseReverse(level);
    PushChildrenReverses(level, []);
    assert PushChildren(level, []) == Reverse(NextLevel(level));
    if NextLevel(level) != [] {
      assert Reverse(NextLevel(level)) != [];
    }
  }

  /** `each`: the nodes in the order the callback receives them. */
  function Each<D>(t: HNode<D>): seq<Item<D>> {
    EachLoop([Root(t)])
  }

  /** A level: items of one depth, left to right. */
  predicate Level<D>(s: seq<Item<D>>, d: nat) {
    (forall k | 0 <= k < |s| :: |s[k].at| == d) && PreSorted(s)
  }

  lemma {:induction false} PreLessExtend(a: Addr, b: Addr, i: nat, j: nat)
    requires PreLess(a, b) && |a| == |b|
    ensures PreLess(a + [i], b + [j])
  {
    if a[0] == b[0] {
      assert (a + [i])[1..] == a[1..] + [i];
      assert (b + [j])[1..] == b[1..] + [j];
      PreLessExtend(a[1..], b[1..], i, j);
    }
  }

  lemma {:induction false} NextLevelAfter<D>(s: seq<Item<D>>, q: Addr, d: nat)
    requires |q| == d
    requires forall k | 0 <= k < |s| :: |s[k].at| == d && PreLess(q, s[k].at)
    ensures forall i: nat, y | y in NextLevel(s) :: PreLess(q + [i], y.at)
  {
    if s != [] {
      NextLevelAfter(s[1..], q, d);
      forall i: nat, y | y in Children(s[0]) ensures PreLess(q + [i], y.at) {
        PreLessExtend(q, s[0].at, i, y.at[d]);
        assert y.at == s[0].at + [y.at[d]];
      }
    }
  }

  lemma {:induction false} NextLevelIsLevel<D>(s: seq<Item<D>>, d: nat)
    requires Level(s, d)
    ensures Level(NextLevel(s), d + 1)
  {
    if s != [] {
      var x := s[0];
      NextLevelIsLevel(s[1..], d);
      NextLevelAfter(s[1..], x.at, d);
      var a, b := Children(x), NextLevel(s[1..]);
      forall j, k | 0 <= j < k < |a| ensures PreLess(a[j].at, a[k].at) {
        assert a[j].at[..d] == x.at == a[k].at[..d];
        PreLessDiverge(a[j].at, a[k].at, d);
      }
      forall j, k | 0 <= j < |a| && 0 <= k < |b| ensures PreLess(a[j].at, b[k].at) {
        assert a[j].at == x.at + [j];
      }
    }
  }

  lemma {:induction false} EachLoopSorted<D>(level: seq<Item<D>>, d: nat)
    requires level != [] && Level(level, d)
    ensures LevelSorted(EachLoop(Reverse(level)))
    ensures forall y | y in EachLoop(Reverse(level)) :: |y.at| >= d
    decreases Weight(level)
  {
    EachLoopLevel(level);
    var next := NextLevel(level);
    if next != [] {
      NextLevelIsLevel(level, d);
      WeightNextLevel(level);
      EachLoopSorted(next, d + 1);
      LevelThenDeeper(level, EachLoop(Reverse(next)), d);
    } else {
      LevelThenDeeper(level, [], d);
    }
  }

  lemma LevelThenDeeper<D>(a: seq<Item<D>>, b: seq<Item<D>>, d: nat)
    requires Level(a, d) && LevelSorted(b)
    requires forall y | y in b :: |y.at| >= d + 1
    ensures LevelSorted(a + b)
    ensures forall y | y in a + b :: |y.at| >= d
  {
    var r := a + b;
    forall j, k | 0 <= j < k < |r| ensures LevelLess(r[j].at, r[k].at) {
      if k >= |a| {
        assert r[k] == b[k - |a|];
        if j >= |a| {
          assert r[j] == b[j - |a|];
        } else {
          assert r[k] in b;
        }
      }
    }
  }

  lemma {:induction false} PreAllByLevel<D>(s: seq<Item<D>>)
    ensures forall y :: y in PreAll(s) <==> y in s || y in PreAll(NextLevel(s))
  {
    if s != [] {
      PreAllByLevel(s[1..]);
      PreOrderUnfold(s[0]);
      PreAllAppend(Children(s[0]), NextLevel(s[1..]));
      assert s == [s[0]] + s[1..];
    }
  }

  lemma {:induction false} EachLoopMembers<D>(level: seq<Item<D>>)
    requires level != []
    ensures forall y :: y in EachLoop(Reverse(level)) <==> y in PreAll(level)
    decreases Weight(level)
  {
    EachLoopLevel(level);
    PreAllByLevel(level);
    var next := NextLevel(level);
    if next != [] {
      WeightNextLevel(level);
      EachLoopMembers(next);
    }
  }

  // ---------------------------------------------------------------------
  // The three traversals of a whole tree

  /** A traversal of `t` that lists exactly the nodes of `t`, each with
      its address. */
  ghost predicate Covers<D>(t: HNode<D>, s: seq<Item<D>>) {
    && (forall y | y in s :: Valid(t, y.at) && y.node == At(t, y.at))
    && (forall a | Valid(t, a) :: a in Ats(s))
  }

  /** No address twice. */
  predicate Once<D>(s: seq<Item<D>>) {
    forall j, k | 0 <= j < k < |s| :: s[j].at != s[k].at
  }

  lemma PreSortedOnce<D>(s: seq<Item<D>>)
    requires PreSorted(s)
    ensures Once(s)
  {
    forall j, k | 0 <= j < k < |s| ensures s[j].at != s[k].at {
      PreLessIrreflexive(s[j].at);
    }
  }

  lemma PostSortedOnce<D>(s: seq<Item<D>>)
    requires PostSorted(s)
    ensures Once(s)
  {
    forall j, k | 0 <= j < k < |s| ensures s[j].at != s[k].at {
      PostLessIrreflexive(s[j].at);
    }
  }

  lemma LevelSortedOnce<D>(s: seq<Item<D>>)
    requires LevelSorted(s)
    ensures Once(s)
  {
    forall j, k | 0 <= j < k < |s| ensures s[j].at != s[k].at {
      PreLessIrreflexive(s[j].at);
    }
  }

  /** `eachBefore` visits every node once, an ancestor before its
      descendants and earlier siblings' subtrees before later ones. */
  lemma EachBeforeOrder<D>(t: HNode<D>)
    ensures Covers(t, EachBefore(t))
    ensures PreSorted(EachBefore(t)) && Once(EachBefore(t))
  {
    PreOrderInside(Root(t));
    PreOrderSorted(Root(t));
    PreSortedOnce(EachBefore(t));
    forall a | Valid(t, a) ensures a in Ats(EachBefore(t)) {
      PreOrderComplete(Root(t), a);
      assert Root(t).at + a == a;
    }
  }

  /** `eachAfter` visits every node once, descendants before their
      ancestor and earlier siblings' subtrees before later ones. */
  lemma EachAfterOrder<D>(t: HNode<D>)
    ensures Covers(t, EachAfter(t))
    ensures PostSorted(EachAfter(t)) && Once(EachAfter(t))
  {
    PostOrderInside(Root(t));
    PostOrderSorted(Root(t));
    PostSortedOnce(EachAfter(t));
    forall a | Valid(t, a) ensures a in Ats(EachAfter(t)) {
      PostOrderComplete(Root(t), a);
      assert Root(t).at + a == a;
    }
  }

  lemma CoversSameMembers<D>(t: HNode<D>, s: seq<Item<D>>, u: seq<Item<D>>)
    requires Covers(t, s)
    requires forall y :: y in u <==> y in s
    ensures Covers(t, u)
  {
    forall a | Valid(t, a) ensures a in Ats(u) {
      var k :| 0 <= k < |s| && Ats(s)[k] == a;
      assert s[k] in u;
      var m :| 0 <= m < |u| && u[m] == s[k];
      assert Ats(u)[m] == a;
    }
  }

  /** `each` visits every node once, shallower nodes first and the nodes
      of one depth left to right, starting at the root. */
  lemma EachOrder<D>(t: HNode<D>)
    ensures Covers(t, Each(t))
    ensures LevelSorted(Each(t)) && Once(Each(t))
    ensures Each(t)[0] == Root(t)
  {
    var root := [Root(t)];
    assert Reverse(root) == root;
    assert Level(root, 0);
    EachLoopSorted(root, 0);
    EachLoopMembers(root);
    assert PreAll(root) == PreOrder(Root(t)) + PreAll([]);
    EachLoopLevel(root);
    EachBeforeOrder(t);
    CoversSameMembers(t, EachBefore(t), Each(t));
    LevelSortedOnce(Each(t));
  }
}
