/** One node of the point quadtree (QuadNode.java).

    A node is either a leaf, holding one datum followed by the chain of data
    that have exactly the same coordinates (the source's `next` links), or an
    internal node with four child slots, each empty or holding a node. The
    `aux` field is the scratch that a traversal client attaches to every node
    (the aggregated strength and centroid of the many-body force, the
    maximal radius of the collision force); a fresh node gets the client's
    default scratch. */
module QuadNodes {
  import opened Wrappers

  datatype QNode<E, A> =
    | Leaf(data: E, next: seq<E>, aux: A)
    | Internal(kids: seq<Option<QNode<E, A>>>, aux: A)

  /** The no-argument constructor: an internal node with four empty slots. */
  function NewInternal<E, A>(blank: A): (q: QNode<E, A>)
    ensures HasChildren(q) && !IsLeaf(q)
    ensures |q.kids| == 4
    ensures forall i | 0 <= i < 4 :: Get(q, i) == None
  {
    Internal([None, None, None, None], blank)
  }

  /** The data constructor: a leaf holding `d`, with an empty `next` chain. */
  function NewLeaf<E, A>(d: E, blank: A): (q: QNode<E, A>)
    ensures IsLeaf(q) && !HasChildren(q)
    ensures q.data == d && Chain(q) == [d]
  {
    Leaf(d, [], blank)
  }

  predicate HasChildren<E, A>(q: QNode<E, A>) {
    q.Internal?
  }

  predicate IsLeaf<E, A>(q: QNode<E, A>) {
    q.Leaf?
  }

  /** The data a leaf holds, its own datum first, then its `next` chain. */
  function Chain<E, A>(q: QNode<E, A>): (c: seq<E>)
    requires q.Leaf?
    ensures |c| == 1 + |q.next| && c[0] == q.data
  {
    [q.data] + q.next
  }

  function Get<E, A>(q: QNode<E, A>, i: nat): Option<QNode<E, A>>
    requires q.Internal? && i < |q.kids|
  {
    q.kids[i]
  }

  /** `set(i, c)`: afterwards slot `i` holds `c` and every other slot and the
      scratch are as before. (The source also returns `c` to its caller.) */
  function Set<E, A>(q: QNode<E, A>, i: nat, c: Option<QNode<E, A>>): (r: QNode<E, A>)
    requires q.Internal? && i < |q.kids|
    ensures r.Internal? && |r.kids| == |q.kids| && r.aux == q.aux
    ensures Get(r, i) == c
    ensures forall j | 0 <= j < |q.kids| && j != i :: Get(r, j) == Get(q, j)
  {
    q.(kids := q.kids[i := c])
  }

  /** Number of nodes in the subtree, used to bound traversals. */
  function Size<E, A>(q: QNode<E, A>): (n: nat)
    ensures n >= 1
    decreases q, 1
  {
    match q
    case Leaf(_, _, _) => 1
    case Internal(kids, _) => 1 + KidsSize(q, |kids|)
  }

  /** Total size of the subtrees in the first `n` slots of `q`. */
  function KidsSize<E, A>(q: QNode<E, A>, n: nat): nat
    requires q.Internal? && n <= |q.kids|
    decreases q, 0, n
  {
    if n == 0 then 0
    else KidsSize(q, n - 1) + (if q.kids[n - 1].Some? then Size(q.kids[n - 1].value) else 0)
  }
}
