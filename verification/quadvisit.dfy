/** The two traversals of QuadTree.java, written as the stack loops of the
    source and proved equal to recursive pre-order and post-order
    definitions; and the functional reading of a post-order pass that
    stores a summary in every node's scratch value. */
module QuadVisits {
  import opened Wrappers
  import opened QuadNodes
  import opened QuadTrees

  /** A visitor: from the current state and a quad, the next state and
      whether the quad's children are to be skipped. */
  type Visitor<!E, !A, !S> = (S, QNode<E, A>, Box) -> (S, bool)

  /** Total size of the subtrees on a traversal stack; both loops shrink it. */
  function StackSize<E, A>(st: seq<Quad<E, A>>): nat {
    if |st| == 0 then 0 else Size(st[0].node) + StackSize(st[1..])
  }

  lemma {:induction false} StackSizeAppend<E, A>(a: seq<Quad<E, A>>, c: seq<Quad<E, A>>)
    ensures StackSize(a + c) == StackSize(a) + StackSize(c)
  {
    if |a| > 0 {
      assert (a + c)[0] == a[0] && (a + c)[1..] == a[1..] + c;
      StackSizeAppend(a[1..], c);
    } else {
      assert a + c == c;
    }
  }

  /** The quads of the present children of `q` from slot `i` on, in slot
      order, each with the bounds of its quadrant. */
  function KidQuads<E, A>(q: QNode<E, A>, b: Box, i: nat): seq<Quad<E, A>>
    requires q.Internal? && i <= |q.kids|
    decreases |q.kids| - i
  {
    if i == |q.kids| then []
    else (if q.kids[i].Some? then [Quad(q.kids[i].value, Quadrant(b, i))] else []) + KidQuads(q, b, i + 1)
  }

  lemma {:induction false} KidQuadsSize<E, A>(q: QNode<E, A>, b: Box, i: nat)
    requires q.Internal? && i <= |q.kids|
    ensures StackSize(KidQuads(q, b, i)) + KidsSize(q, i) == Size(q) - 1
    decreases |q.kids| - i
  {
    if i < |q.kids| {
      KidQuadsSize(q, b, i + 1);
      var head := if q.kids[i].Some? then [Quad(q.kids[i].value, Quadrant(b, i))] else [];
      StackSizeAppend(head, KidQuads(q, b, i + 1));
      assert StackSize(head) == (if q.kids[i].Some? then Size(q.kids[i].value) else 0);
    }
  }

  function Reverse<T>(s: seq<T>): (r: seq<T>)
    ensures |r| == |s|
  {
    if |s| == 0 then [] else Reverse(s[1..]) + [s[0]]
  }

  lemma {:induction false} StackSizeReverse<E, A>(s: seq<Quad<E, A>>)
    ensures StackSize(Reverse(s)) == StackSize(s)
  {
    if |s| > 0 {
      StackSizeReverse(s[1..]);
      StackSizeAppend(Reverse(s[1..]), [s[0]]);
    }
  }

  // ---------------------------------------------------------------------
  // visit

  /** Recursive pre-order with pruning: the callback sees a node before its
      children, and children in slot order 0 to 3. */
  function VisitRec<E, A, S>(q: QNode<E, A>, b: Box, cb: Visitor<E, A, S>, s: S): S
    decreases q, 1
  {
    var r := cb(s, q, b);
    if r.1 || q.Leaf? then r.0 else VisitKids(q, b, cb, r.0, 0)
  }

  function VisitKids<E, A, S>(q: QNode<E, A>, b: Box, cb: Visitor<E, A, S>, s: S, i: nat): S
    requires q.Internal? && i <= |q.kids|
    decreases q, 0, |q.kids| - i
  {
    if i == |q.kids| then s
    else VisitKids(q, b, cb, if q.kids[i].Some? then VisitRec(q.kids[i].value, Quadrant(b, i), cb, s) else s, i + 1)
  }

  /** The loop of `visit`: pop a quad, call back, and unless told to skip,
      push the children 3, 2, 1, 0 so that 0 is popped first. */
  function VisitLoop<E, A, S>(st: seq<Quad<E, A>>, cb: Visitor<E, A, S>, s: S): S
    decreases StackSize(st)
  {
    if |st| == 0 then s
    else
      var top := st[0];
      var r := cb(s, top.node, top.box);
      var pushed := if !r.1 && top.node.Internal? then KidQuads(top.node, top.box, 0) else [];
      assert StackSize(pushed + st[1..]) < StackSize(st) by {
        StackSizeAppend(pushed, st[1..]);
        if top.node.Internal? {
          KidQuadsSize(top.node, top.box, 0);
        }
      }
      VisitLoop(pushed + st[1..], cb, r.0)
  }

  /** `visit(callback)` on a tree whose root, when present, has bounds. */
  function Visit<E, A, S>(t: QuadTree<E, A>, cb: Visitor<E, A, S>, s: S): S
    requires t.root.Some? ==> t.extent.Some?
  {
    if t.root.None? then s else VisitLoop([Quad(t.root.value, t.extent.value)], cb, s)
  }

  lemma {:induction false} VisitLoopNode<E, A, S>(q: QNode<E, A>, b: Box, rest: seq<Quad<E, A>>, cb: Visitor<E, A, S>, s: S)
    ensures VisitLoop([Quad(q, b)] + rest, cb, s) == VisitLoop(rest, cb, VisitRec(q, b, cb, s))
    decreases Size(q), 1
  {
    var st := [Quad(q, b)] + rest;
    assert st[0] == Quad(q, b) && st[1..] == rest;
    var r := cb(s, q, b);
    if !r.1 && q.Internal? {
      assert VisitLoop(st, cb, s) == VisitLoop(KidQuads(q, b, 0) + rest, cb, r.0);
      VisitLoopKids(q, b, 0, rest, cb, r.0);
    } else {
      assert VisitLoop(st, cb, s) == VisitLoop([] + rest, cb, r.0);
      assert [] + rest == rest;
    }
  }

  lemma {:induction false} VisitLoopKids<E, A, S>(q: QNode<E, A>, b: Box, i: nat, rest: seq<Quad<E, A>>, cb: Visitor<E, A, S>, s: S)
    requires q.Internal? && i <= |q.kids|
    ensures VisitLoop(KidQuads(q, b, i) + rest, cb, s) == VisitLoop(rest, cb, VisitKids(q, b, cb, s, i))
    decreases Size(q), 0, |q.kids| - i
  {
    if i == |q.kids| {
      assert KidQuads(q, b, i) + rest == rest;
    } else {
      var tail := KidQuads(q, b, i + 1);
      if q.kids[i].Some? {
        var c := q.kids[i].value;
        KidSmaller(q, i);
        assert KidQuads(q, b, i) + rest == [Quad(c, Quadrant(b, i))] + (tail + rest);
        VisitLoopNode(c, Quadrant(b, i), tail + rest, cb, s);
        VisitLoopKids(q, b, i + 1, rest, cb, VisitRec(c, Quadrant(b, i), cb, s));
      } else {
        assert KidQuads(q, b, i) == tail;
        VisitLoopKids(q, b, i + 1, rest, cb, s);
      }
    }
  }

  lemma KidSmaller<E, A>(q: QNode<E, A>, i: nat)
    requires q.Internal? && i < |q.kids| && q.kids[i].Some?
    ensures Size(q.kids[i].value) < Size(q)
  {
    KidsSizeCovers(q, i, |q.kids|);
  }

  lemma {:induction false} KidsSizeCovers<E, A>(q: QNode<E, A>, i: nat, n: nat)
    requires q.Internal? && i < n <= |q.kids| && q.kids[i].Some?
    ensures Size(q.kids[i].value) <= KidsSize(q, n)
  {
    if n - 1 != i {
      KidsSizeCovers(q, i, n - 1);
    }
  }

  /** The stack loop of `visit` calls back exactly as the recursive
      pre-order with pruning does. */
  lemma VisitIsPreOrder<E, A, S>(t: QuadTree<E, A>, cb: Visitor<E, A, S>, s: S)
    requires t.root.Some? ==> t.extent.Some?
    ensures Visit(t, cb, s) == if t.root.None? then s else VisitRec(t.root.value, t.extent.value, cb, s)
  {
    if t.root.Some? {
      VisitLoopNode(t.root.value, t.extent.value, [], cb, s);
      assert [Quad(t.root.value, t.extent.value)] + [] == [Quad(t.root.value, t.extent.value)];
    }
  }

  /** Whatever the callback preserves, a whole `visit` preserves. */
  lemma VisitKeeps<E, A, S>(t: QuadTree<E, A>, cb: Visitor<E, A, S>, s: S, inv: S -> bool)
    requires t.root.Some? ==> t.extent.Some?
    requires inv(s)
    requires forall s', n, bb | inv(s') :: inv(cb(s', n, bb).0)
    ensures inv(Visit(t, cb, s))
  {
    VisitIsPreOrder(t, cb, s);
    if t.root.Some? {
      RecKeeps(t.root.value, t.extent.value, cb, s, inv);
    }
  }

  lemma {:induction false} RecKeeps<E, A, S>(q: QNode<E, A>, b: Box, cb: Visitor<E, A, S>, s: S, inv: S -> bool)
    requires inv(s)
    requires forall s', n, bb | inv(s') :: inv(cb(s', n, bb).0)
    ensures inv(VisitRec(q, b, cb, s))
    decreases q, 1
  {
    var r := cb(s, q, b);
    if !r.1 && q.Internal? {
      KidsKeep(q, b, cb, r.0, inv, 0);
    }
  }

  lemma {:induction false} KidsKeep<E, A, S>(q: QNode<E, A>, b: Box, cb: Visitor<E, A, S>, s: S, inv: S -> bool, i: nat)
    requires q.Internal? && i <= |q.kids| && inv(s)
    requires forall s', n, bb | inv(s') :: inv(cb(s', n, bb).0)
    ensures inv(VisitKids(q, b, cb, s, i))
    decreases q, 0, |q.kids| - i
  {
    if i < |q.kids| {
      if q.kids[i].Some? {
        RecKeeps(q.kids[i].value, Quadrant(b, i), cb, s, inv);
      }
      KidsKeep(q, b, cb, if q.kids[i].Some? then VisitRec(q.kids[i].value, Quadrant(b, i), cb, s) else s, inv, i + 1);
    }
  }

  // ---------------------------------------------------------------------
  // Pre-order as a list, for visitors that never prune

  function PreOrder<E, A>(q: QNode<E, A>, b: Box): seq<Quad<E, A>>
    decreases q, 1
  {
    [Quad(q, b)] + (if q.Internal? then PreKids(q, b, 0) else [])
  }

  function PreKids<E, A>(q: QNode<E, A>, b: Box, i: nat): seq<Quad<E, A>>
    requires q.Internal? && i <= |q.kids|
    decreases q, 0, |q.kids| - i
  {
    if i == |q.kids| then []
    else (if q.kids[i].Some? then PreOrder(q.kids[i].value, Quadrant(b, i)) else []) + PreKids(q, b, i + 1)
  }

  /** Feeds `quads` to `cb` in order, ignoring the skip flag. */
  function Fold<E, A, S>(quads: seq<Quad<E, A>>, cb: Visitor<E, A, S>, s: S): S {
    if |quads| == 0 then s else Fold(quads[1..], cb, cb(s, quads[0].node, quads[0].box).0)
  }

  lemma {:induction false} FoldAppend<E, A, S>(a: seq<Quad<E, A>>, c: seq<Quad<E, A>>, cb: Visitor<E, A, S>, s: S)
    ensures Fold(a + c, cb, s) == Fold(c, cb, Fold(a, cb, s))
  {
    if |a| > 0 {
      assert (a + c)[0] == a[0] && (a + c)[1..] == a[1..] + c;
      FoldAppend(a[1..], c, cb, cb(s, a[0].node, a[0].box).0);
    } else {
      assert a + c == c;
    }
  }

  /** A visitor that never asks to skip sees every node of the subtree,
      each node before its children and the children in slot order. */
  lemma {:induction false} NoPruneVisitsAll<E, A, S>(q: QNode<E, A>, b: Box, cb: Visitor<E, A, S>, s: S)
    requires forall s', n, bb :: !cb(s', n, bb).1
    ensures VisitRec(q, b, cb, s) == Fold(PreOrder(q, b), cb, s)
    decreases q, 1
  {
    var rest := if q.Internal? then PreKids(q, b, 0) else [];
    assert PreOrder(q, b)[1..] == rest;
    if q.Internal? {
      NoPruneKids(q, b, cb, cb(s, q, b).0, 0);
    }
  }

  lemma {:induction false} NoPruneKids<E, A, S>(q: QNode<E, A>, b: Box, cb: Visitor<E, A, S>, s: S, i: nat)
    requires forall s', n, bb :: !cb(s', n, bb).1
    requires q.Internal? && i <= |q.kids|
    ensures VisitKids(q, b, cb, s, i) == Fold(PreKids(q, b, i), cb, s)
    decreases q, 0, |q.kids| - i
  {
    if i < |q.kids| {
      var head := if q.kids[i].Some? then PreOrder(q.kids[i].value, Quadrant(b, i)) else [];
      FoldAppend(head, PreKids(q, b, i + 1), cb, s);
      var s' := if q.kids[i].Some? then VisitRec(q.kids[i].value, Quadrant(b, i), cb, s) else s;
      if q.kids[i].Some? {
        NoPruneVisitsAll(q.kids[i].value, Quadrant(b, i), cb, s);
      }
      NoPruneKids(q, b, cb, s', i + 1);
    }
  }

  // ---------------------------------------------------------------------
  // visitAfter

  /** Post-order: children in slot order 0 to 3, then the node itself. */
  function PostOrder<E, A>(q: QNode<E, A>, b: Box): seq<Quad<E, A>>
    decreases q, 1
  {
    (if q.Internal? then PostKids(q, b, 0) else []) + [Quad(q, b)]
  }

  function PostKids<E, A>(q: QNode<E, A>, b: Box, i: nat): seq<Quad<E, A>>
    requires q.Internal? && i <= |q.kids|
    decreases q, 0, |q.kids| - i
  {
    if i == |q.kids| then []
    else (if q.kids[i].Some? then PostOrder(q.kids[i].value, Quadrant(b, i)) else []) + PostKids(q, b, i + 1)
  }

  /** The first loop of `visitAfter`: pop a quad, push its children 0 to 3
      (so 3 is popped first), and push the quad onto `next`. The result is
      `next` from its top down, the order of the callbacks. */
  function AfterLoop<E, A>(st: seq<Quad<E, A>>, next: seq<Quad<E, A>>): seq<Quad<E, A>>
    decreases StackSize(st)
  {
    if |st| == 0 then next
    else
      var top := st[0];
      var pushed := if top.node.Internal? then Reverse(KidQuads(top.node, top.box, 0)) else [];
      assert StackSize(pushed + st[1..]) < StackSize(st) by {
        StackSizeAppend(pushed, st[1..]);
        if top.node.Internal? {
          StackSizeReverse(KidQuads(top.node, top.box, 0));
          KidQuadsSize(top.node, top.box, 0);
        }
      }
      AfterLoop(pushed + st[1..], [top] + next)
  }

  /** The order in which `visitAfter` calls back. */
  function AfterOrder<E, A>(t: QuadTree<E, A>): seq<Quad<E, A>>
    requires t.root.Some? ==> t.extent.Some?
  {
    if t.root.None? then [] else AfterLoop([Quad(t.root.value, t.extent.value)], [])
  }

  lemma {:induction false} AfterLoopNode<E, A>(q: QNode<E, A>, b: Box, rest: seq<Quad<E, A>>, next: seq<Quad<E, A>>)
    ensures AfterLoop([Quad(q, b)] + rest, next) == AfterLoop(rest, PostOrder(q, b) + next)
    decreases Size(q), 1
  {
    var st := [Quad(q, b)] + rest;
    assert st[0] == Quad(q, b) && st[1..] == rest;
    if q.Internal? {
      AfterLoopKids(q, b, 0, rest, [Quad(q, b)] + next);
      assert PostOrder(q, b) + next == PostKids(q, b, 0) + ([Quad(q, b)] + next);
    } else {
      assert PostOrder(q, b) == [Quad(q, b)];
      assert AfterLoop(st, next) == AfterLoop([] + rest, [Quad(q, b)] + next);
      assert [] + rest == rest;
    }
  }

  lemma {:induction false} AfterLoopKids<E, A>(q: QNode<E, A>, b: Box, i: nat, rest: seq<Quad<E, A>>, next: seq<Quad<E, A>>)
    requires q.Internal? && i <= |q.kids|
    ensures AfterLoop(Reverse(KidQuads(q, b, i)) + rest, next) == AfterLoop(rest, PostKids(q, b, i) + next)
    decreases Size(q), 0, |q.kids| - i
  {
    if i == |q.kids| {
      assert Reverse(KidQuads(q, b, i)) + rest == rest;
      assert PostKids(q, b, i) + next == next;
    } else if q.kids[i].Some? {
      var c := q.kids[i].value;
      var cq := Quad(c, Quadrant(b, i));
      KidSmaller(q, i);
      KidStackSome(q, b, i, rest);
      KidPostSome(q, b, i, next);
      AfterLoopKids(q, b, i + 1, [cq] + rest, next);
      AfterLoopNode(c, Quadrant(b, i), rest, PostKids(q, b, i + 1) + next);
    } else {
      assert KidQuads(q, b, i) == KidQuads(q, b, i + 1);
      assert PostKids(q, b, i) == PostKids(q, b, i + 1);
      AfterLoopKids(q, b, i + 1, rest, next);
    }
  }

  /** A present child `i` is pushed after the later ones. */
  lemma KidStackSome<E, A>(q: QNode<E, A>, b: Box, i: nat, rest: seq<Quad<E, A>>)
    requires q.Internal? && i < |q.kids| && q.kids[i].Some?
    ensures Reverse(KidQuads(q, b, i)) + rest
      == Reverse(KidQuads(q, b, i + 1)) + ([Quad(q.kids[i].value, Quadrant(b, i))] + rest)
  {
    var cq := Quad(q.kids[i].value, Quadrant(b, i));
    var tail := KidQuads(q, b, i + 1);
    assert KidQuads(q, b, i) == [cq] + tail;
    ReverseCons(cq, tail);
  }

  /** A present child `i` contributes its post-order ahead of the later ones. */
  lemma KidPostSome<E, A>(q: QNode<E, A>, b: Box, i: nat, next: seq<Quad<E, A>>)
    requires q.Internal? && i < |q.kids| && q.kids[i].Some?
    ensures PostKids(q, b, i) + next
      == PostOrder(q.kids[i].value, Quadrant(b, i)) + (PostKids(q, b, i + 1) + next)
  {
  }

  lemma ReverseCons<T>(x: T, s: seq<T>)
    ensures Reverse([x] + s) == Reverse(s) + [x]
  {
    assert ([x] + s)[1..] == s;
  }

  /** `visitAfter` calls back in post-order: every node after all of its
      children, children in slot order. */
  lemma VisitAfterIsPostOrder<E, A>(t: QuadTree<E, A>)
    requires t.root.Some? ==> t.extent.Some?
    ensures AfterOrder(t) == if t.root.None? then [] else PostOrder(t.root.value, t.extent.value)
  {
    if t.root.Some? {
      var q, b := t.root.value, t.extent.value;
      assert [Quad(q, b)] + [] == [Quad(q, b)];
      AfterLoopNode(q, b, [], []);
      assert PostOrder(q, b) + [] == PostOrder(q, b);
    }
  }

  // ---------------------------------------------------------------------
  // Scratch summaries written in post-order

  /** The tree after a `visitAfter` whose callback stores in each node's
      scratch value `f(node, bounds)`, where `node` already carries the
      summaries of its children. */
  function Annotate<E, A>(q: QNode<E, A>, b: Box, f: (QNode<E, A>, Box) -> A): (r: QNode<E, A>)
    decreases q, 1
  {
    match q
    case Leaf(d, next, _) => Leaf(d, next, f(q, b))
    case Internal(kids, aux) =>
      var below := Internal(AnnotateKids(q, b, f, |kids|), aux);
      Internal(below.kids, f(below, b))
  }

  function AnnotateKids<E, A>(q: QNode<E, A>, b: Box, f: (QNode<E, A>, Box) -> A, n: nat): (r: seq<Option<QNode<E, A>>>)
    requires q.Internal? && n <= |q.kids|
    ensures |r| == n
    decreases q, 0, n
  {
    if n == 0 then []
    else
      var o := q.kids[n - 1];
      AnnotateKids(q, b, f, n - 1) + [if o.Some? then Some(Annotate(o.value, Quadrant(b, n - 1), f)) else None]
  }

  /** Writing scratch values keeps the shape, the placement and the
      elements of the tree. */
  lemma {:induction false} AnnotateKeeps<E, A>(ax: Axes<E>, q: QNode<E, A>, b: Box, f: (QNode<E, A>, Box) -> A)
    ensures var r := Annotate(q, b, f);
      && r.Leaf? == q.Leaf?
      && (r.Leaf? ==> r.data == q.data && r.next == q.next)
      && (r.Internal? ==> |r.kids| == |q.kids| && forall i | 0 <= i < |q.kids| :: r.kids[i].Some? == q.kids[i].Some?)
      && Items(r) == Items(q)
      && Size(r) == Size(q)
      && (NodeOk(ax, q, b) ==> NodeOk(ax, r, b))
    decreases q, 1
  {
    if q.Internal? {
      var ks := AnnotateKids(q, b, f, |q.kids|);
      AnnotateKidsKeep(ax, q, b, f, |q.kids|);
      KidsPrefix(Annotate(q, b, f), Internal(ks, q.aux), |q.kids|);
    }
  }

  lemma {:induction false} AnnotateKidsKeep<E, A>(ax: Axes<E>, q: QNode<E, A>, b: Box, f: (QNode<E, A>, Box) -> A, n: nat)
    requires q.Internal? && n <= |q.kids|
    ensures var ks := AnnotateKids(q, b, f, n);
      var r := Internal(ks, q.aux);
      && (forall i | 0 <= i < n :: ks[i].Some? == q.kids[i].Some?)
      && (forall i | 0 <= i < n && q.kids[i].Some? :: ks[i].value == Annotate(q.kids[i].value, Quadrant(b, i), f))
      && (forall i | 0 <= i < n && q.kids[i].Some? ::
            NodeOk(ax, q.kids[i].value, Quadrant(b, i)) ==> NodeOk(ax, ks[i].value, Quadrant(b, i)))
      && KidsItems(r, n) == KidsItems(q, n)
      && KidsSize(r, n) == KidsSize(q, n)
    decreases q, 0, n
  {
    var ks := AnnotateKids(q, b, f, n);
    AnnotateKidsSlots(q, b, f, n);
    forall i | 0 <= i < n && q.kids[i].Some?
      ensures NodeOk(ax, q.kids[i].value, Quadrant(b, i)) ==> NodeOk(ax, ks[i].value, Quadrant(b, i))
    {
      AnnotateKeeps(ax, q.kids[i].value, Quadrant(b, i), f);
    }
    if n > 0 {
      AnnotateKidsKeep(ax, q, b, f, n - 1);
      var ks' := AnnotateKids(q, b, f, n - 1);
      var r := Internal(ks, q.aux);
      var r' := Internal(ks', q.aux);
      KidsPrefix(r, r', n - 1);
      var o := q.kids[n - 1];
      if o.Some? {
        AnnotateKeeps(ax, o.value, Quadrant(b, n - 1), f);
      }
      assert SlotItems(ks[n - 1]) == SlotItems(o);
      assert KidsItems(r, n) == KidsItems(r, n - 1) + SlotItems(ks[n - 1]);
    }
  }

  /** Slot `i` of the annotated children is the annotated child `i`. */
  lemma {:induction false} AnnotateKidsSlots<E, A>(q: QNode<E, A>, b: Box, f: (QNode<E, A>, Box) -> A, n: nat)
    requires q.Internal? && n <= |q.kids|
    ensures var ks := AnnotateKids(q, b, f, n);
      forall i | 0 <= i < n :: ks[i] == if q.kids[i].Some? then Some(Annotate(q.kids[i].value, Quadrant(b, i), f)) else None
  {
    if n > 0 {
      AnnotateKidsSlots(q, b, f, n - 1);
    }
  }

  /** The summaries of the first `n` slots depend on those slots only. */
  lemma {:induction false} KidsPrefix<E, A>(r: QNode<E, A>, r': QNode<E, A>, n: nat)
    requires r.Internal? && r'.Internal? && n <= |r.kids| && n <= |r'.kids|
    requires forall i | 0 <= i < n :: r.kids[i] == r'.kids[i]
    ensures KidsItems(r, n) == KidsItems(r', n) && KidsSize(r, n) == KidsSize(r', n)
  {
    if n > 0 {
      KidsPrefix(r, r', n - 1);
    }
  }
}
