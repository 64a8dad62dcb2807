/** HierarchyBuilder: a node tree grown from a tree of data, with depths,
    values and heights. The children of a datum are the datum's own
    list, which may be absent; both an absent and an empty list give a
    node without children list. */
module HierarchyBuilders {
  import opened Wrappers
  import opened Hierarchies

  /** A datum: a payload, an optional value and an optional list of child
      data. */
  datatype Datum<P> = Datum(payload: P, value: Option<real>, children: DatumList<P>)

  datatype DatumList<P> = Absent | Given(items: seq<Datum<P>>)

  function Listed<P>(d: Datum<P>): (r: seq<Datum<P>>)
    ensures forall i | 0 <= i < |r| :: r[i] < d
  {
    if d.children.Given? then d.children.items else []
  }

  predicate DValid<P>(d: Datum<P>, a: Addr)
    decreases |a|
  {
    |a| == 0 || (a[0] < |Listed(d)| && DValid(Listed(d)[a[0]], a[1..]))
  }

  function DAt<P>(d: Datum<P>, a: Addr): Datum<P>
    requires DValid(d, a)
    decreases |a|
  {
    if |a| == 0 then d else DAt(Listed(d)[a[0]], a[1..])
  }

  // ---------------------------------------------------------------------
  // Growing the node tree

  /** The first loop of `hierarchy`: one node per datum holding that
      datum; the datum's value copied when the root datum has one; a
      children list only for a non-empty list of child data; a child one
      deeper than its parent. Heights are still the fresh nodes' zero. */
  function Grow<P>(d: Datum<P>, valued: bool, depth: int): HNode<Datum<P>>
    decreases d, 1
  {
    var kids := GrowAll(d, valued, depth + 1);
    HNode(d, if valued then d.value else None, depth, 0, if |kids| == 0 then Null else List(kids))
  }

  function GrowAll<P>(d: Datum<P>, valued: bool, depth: int): (r: seq<HNode<Datum<P>>>)
    ensures |r| == |Listed(d)|
    ensures forall i | 0 <= i < |r| :: r[i] == Grow(Listed(d)[i], valued, depth)
    decreases d, 0
  {
    seq(|Listed(d)|, i requires 0 <= i < |Listed(d)| => Grow(Listed(d)[i], valued, depth))
  }

  /** The grown tree has the shape of the data, with every node's datum,
      depth and value where the builder puts them. */
  ghost predicate GrownAt<P>(n: HNode<Datum<P>>, d: Datum<P>, a: Addr, valued: bool, depth: int)
    requires DValid(d, a)
  {
    && n.data == DAt(d, a)
    && n.depth == depth + |a|
    && n.value == (if valued then DAt(d, a).value else None)
    && |Kids(n)| == |Listed(DAt(d, a))|
    && (n.children.List? <==> |Listed(DAt(d, a))| > 0)
  }

  lemma {:induction false} GrowShape<P>(d: Datum<P>, valued: bool, depth: int, a: Addr)
    ensures Valid(Grow(d, valued, depth), a) <==> DValid(d, a)
    ensures DValid(d, a) ==> GrownAt(At(Grow(d, valued, depth), a), d, a, valued, depth)
    decreases |a|
  {
    if |a| > 0 && a[0] < |Listed(d)| {
      GrowShape(Listed(d)[a[0]], valued, depth + 1, a[1..]);
    }
  }

  // ---------------------------------------------------------------------
  // computeHeight

  /** Height maps whose addresses include every parent. */
  predicate Closed(h: map<Addr, int>) {
    forall a | a in h && a != [] :: Parent(a) in h
  }

  /** One call of `computeHeight`: set the node's height, then walk up,
      one more at each step, while the parent's height is smaller. */
  function Raise(h: map<Addr, int>, node: Addr, height: int): (r: map<Addr, int>)
    requires node in h && Closed(h)
    ensures r.Keys == h.Keys
    decreases |node|
  {
    var h1 := h[node := height];
    if node == [] then h1
    else if h1[Parent(node)] < height + 1 then Raise(h1, Parent(node), height + 1)
    else h1
  }

  /** `computeHeight` for every node of `order` in turn. */
  function Pass(h: map<Addr, int>, order: seq<Addr>): (r: map<Addr, int>)
    requires Closed(h) && forall k | 0 <= k < |order| :: order[k] in h
    ensures r.Keys == h.Keys
  {
    if order == [] then h else Pass(Raise(h, order[0], 0), order[1..])
  }

  /** The greatest distance from `x` down to an address of `s` at or below
      it; zero when there is none. */
  function Reach(s: seq<Addr>, x: Addr): nat {
    if s == [] then 0
    else
      var m := Reach(s[..|s| - 1], x);
      var z := s[|s| - 1];
      if x <= z && |z| - |x| > m then |z| - |x| else m
  }

  lemma ReachAppend(s: seq<Addr>, y: Addr, x: Addr)
    ensures Reach(s + [y], x) == if x <= y && |y| - |x| > Reach(s, x) then |y| - |x| else Reach(s, x)
  {
    assert (s + [y])[..|s|] == s;
  }

  lemma {:induction false} ReachBound(s: seq<Addr>, x: Addr, z: Addr)
    requires z in s && x <= z
    ensures Reach(s, x) >= |z| - |x|
  {
    var init := s[..|s| - 1];
    if z != s[|s| - 1] {
      assert s == init + [s[|s| - 1]];
      assert z in init;
      ReachBound(init, x, z);
    }
  }

  lemma {:induction false} ReachUpper(s: seq<Addr>, x: Addr, bound: nat)
    requires forall z | z in s && x <= z :: |z| - |x| <= bound
    ensures Reach(s, x) <= bound
  {
    if s != [] {
      var init := s[..|s| - 1];
      assert forall z | z in init :: z in s;
      ReachUpper(init, x, bound);
    }
  }

  lemma {:induction false} ReachAttained(s: seq<Addr>, x: Addr)
    ensures Reach(s, x) == 0 || exists z | z in s :: x <= z && |z| - |x| == Reach(s, x)
  {
    if s != [] {
      var init := s[..|s| - 1];
      ReachAttained(init, x);
      assert s == init + [s[|s| - 1]];
      if Reach(s, x) != 0 && Reach(s, x) == Reach(init, x) {
        var z :| z in init && x <= z && |z| - |x| == Reach(init, x);
        assert z in s;
      }
    }
  }

  lemma PrefixTrans(x: Addr, p: Addr, z: Addr)
    requires x <= p && p <= z
    ensures x <= z
  {
    assert z[..|x|] == p[..|x|];
  }

  /** Reach grows by one per step up from a node that has been visited. */
  lemma ReachChain(s: seq<Addr>, x: Addr, p: Addr)
    requires p in s && x <= p
    ensures Reach(s, x) >= Reach(s, p) + |p| - |x|
  {
    ReachAttained(s, p);
    if Reach(s, p) == 0 {
      ReachBound(s, x, p);
    } else {
      var z :| z in s && p <= z && |z| - |p| == Reach(s, p);
      PrefixTrans(x, p, z);
      ReachBound(s, x, z);
    }
  }

  /** While walking up from `y`, nodes at or below `node` that are not
      strict ancestors of it already hold the heights for `s + [y]`, and
      strict ancestors still hold those for `s`. */
  lemma {:induction false} RaiseCorrect(h: map<Addr, int>, s: seq<Addr>, y: Addr, node: Addr, height: int)
    requires Closed(h) && node in h && node <= y && height == |y| - |node|
    requires Reach(s + [y], node) == height
    requires forall q | q < node :: q in s
    requires forall x | x in h && x < node :: h[x] == Reach(s, x)
    requires forall x | x in h && !(x < node) && x != node :: h[x] == Reach(s + [y], x)
    ensures forall x | x in Raise(h, node, height) :: Raise(h, node, height)[x] == Reach(s + [y], x)
    decreases |node|
  {
    var h1 := h[node := height];
    if node != [] {
      var p := Parent(node);
      PrefixTrans(p, node, y);
      ReachAppend(s, y, p);
      if h1[p] < height + 1 {
        forall x | x in h1 && !(x < p) && x != p ensures h1[x] == Reach(s + [y], x) {
          if x != node {
            assert !(x < node);
          }
        }
        RaiseCorrect(h1, s, y, p, height + 1);
      } else {
        forall x | x in h1 ensures h1[x] == Reach(s + [y], x) {
          if x < node {
            ReachAppend(s, y, x);
            PrefixTrans(x, node, y);
            assert x <= p;
            ReachChain(s, x, p);
          }
        }
      }
    }
  }

  /** Visiting `y` after all its ancestors and before all its descendants
      brings the heights from `s` to `s + [y]`. */
  lemma Visit(h: map<Addr, int>, s: seq<Addr>, y: Addr)
    requires Closed(h) && y in h
    requires forall x | x in h :: h[x] == Reach(s, x)
    requires forall q | q < y :: q in s
    requires forall z | z in s :: !(y <= z)
    ensures forall x | x in Raise(h, y, 0) :: Raise(h, y, 0)[x] == Reach(s + [y], x)
  {
    ReachUpper(s, y, 0);
    ReachAppend(s, y, y);
    forall x | x in h && !(x < y) && x != y ensures h[x] == Reach(s + [y], x) {
      ReachAppend(s, y, x);
    }
    RaiseCorrect(h, s, y, y, 0);
  }

  /** Position `m` of `order` comes after all its ancestors and before all
      its descendants. */
  ghost predicate Heritable(order: seq<Addr>, m: nat)
    requires m < |order|
  {
    && (forall q | q < order[m] :: q in order[..m])
    && (forall i | 0 <= i < m :: !(order[m] <= order[i]))
  }

  lemma {:induction false} PassCorrect(h: map<Addr, int>, s: seq<Addr>, order: seq<Addr>)
    requires Closed(h) && forall k | 0 <= k < |order| :: order[k] in h
    requires forall x | x in h :: h[x] == Reach(s, x)
    requires forall m | |s| <= m < |s + order| :: Heritable(s + order, m)
    ensures forall x | x in Pass(h, order) :: Pass(h, order)[x] == Reach(s + order, x)
    decreases |order|
  {
    if order == [] {
      assert s + order == s;
    } else {
      var y := order[0];
      assert Heritable(s + order, |s|);
      assert (s + order)[..|s|] == s;
      Visit(h, s, y);
      assert s + [y] + order[1..] == s + order;
      PassCorrect(Raise(h, y, 0), s + [y], order[1..]);
    }
  }

  // ---------------------------------------------------------------------
  // Facts about addresses of a tree

  lemma {:induction false} ValidPrefix<D>(t: HNode<D>, a: Addr, q: Addr)
    requires Valid(t, a) && q <= a
    ensures Valid(t, q)
    decreases |q|
  {
    if |q| > 0 {
      assert q[1..] <= a[1..];
      ValidPrefix(Kids(t)[a[0]], a[1..], q[1..]);
    }
  }

  lemma {:induction false} AtAppend<D>(t: HNode<D>, x: Addr, b: Addr)
    requires Valid(t, x)
    ensures Valid(t, x + b) <==> Valid(At(t, x), b)
    ensures Valid(t, x + b) ==> At(t, x + b) == At(At(t, x), b)
    decreases |x|
  {
    if |x| > 0 {
      assert (x + b)[1..] == x[1..] + b;
      AtAppend(Kids(t)[x[0]], x[1..], b);
    } else {
      assert x + b == b;
    }
  }

  lemma PreLessAsymmetric(a: Addr, b: Addr)
    requires PreLess(a, b)
    ensures !PreLess(b, a)
  {
    if |a| > 0 && a[0] == b[0] {
      PreLessAsymmetric(a[1..], b[1..]);
    }
  }

  /** The pre-order of a tree visits every node after its ancestors and
      before its descendants. */
  lemma PreOrderHeritable<D>(t: HNode<D>, m: nat)
    requires m < |EachBefore(t)|
    ensures Heritable(Ats(EachBefore(t)), m)
  {
    EachBeforeOrder(t);
    var s := EachBefore(t);
    var order := Ats(s);
    forall q | q < order[m] ensures q in order[..m] {
      ValidPrefix(t, order[m], q);
      var i :| 0 <= i < |order| && order[i] == q;
      PreLessPrefix(q, order[m]);
      if i > m {
        assert PreLess(s[m].at, s[i].at);
        PreLessAsymmetric(q, order[m]);
      }
      assert order[..m][i] == q;
    }
    forall i | 0 <= i < m ensures !(order[m] <= order[i]) {
      if order[m] <= order[i] {
        assert order[m] != order[i];
        PreLessPrefix(order[m], order[i]);
        assert PreLess(s[i].at, s[m].at);
        PreLessAsymmetric(order[m], order[i]);
      }
    }
  }

  // ---------------------------------------------------------------------
  // Heights

  /** The height pass of `hierarchy`: `computeHeight` for every node in
      the order of `eachBefore`, starting from all zero. */
  function Heights<D>(t: HNode<D>): (r: map<Addr, int>)
    ensures forall a | Valid(t, a) :: a in r
  {
    var order := Ats(EachBefore(t));
    ZeroClosed(t);
    Pass(Zero(order), order)
  }

  /** Every listed address at height zero. */
  function Zero(order: seq<Addr>): (h: map<Addr, int>)
    ensures forall k | 0 <= k < |order| :: order[k] in h
    ensures forall x | x in h :: h[x] == 0
  {
    map a | a in order :: 0
  }

  /** The zero heights of the pre-order hold every node and its parent. */
  lemma ZeroClosed<D>(t: HNode<D>)
    ensures Closed(Zero(Ats(EachBefore(t))))
    ensures forall a | Valid(t, a) :: a in Zero(Ats(EachBefore(t)))
  {
    EachBeforeOrder(t);
    var h := Zero(Ats(EachBefore(t)));
    forall a | a in h && a != [] ensures Parent(a) in h {
      ValidPrefix(t, a, Parent(a));
    }
  }

  /** The length of the longest path from `t` down to a leaf. */
  function Tallest<D>(t: HNode<D>): nat
    decreases t, 1
  {
    if |Kids(t)| == 0 then 0 else 1 + TallestFrom(t, 0)
  }

  function TallestFrom<D>(t: HNode<D>, i: nat): nat
    decreases t, 0, |Kids(t)| - i
  {
    if i >= |Kids(t)| then 0
    else
      var here, rest := Tallest(Kids(t)[i]), TallestFrom(t, i + 1);
      if here > rest then here else rest
  }

  lemma {:induction false} TallestFromBound<D>(t: HNode<D>, j: nat, i: nat)
    requires j <= i < |Kids(t)|
    ensures Tallest(Kids(t)[i]) <= TallestFrom(t, j)
    decreases i - j
  {
    if j < i {
      TallestFromBound(t, j + 1, i);
    }
  }

  lemma {:induction false} TallestBound<D>(t: HNode<D>, b: Addr)
    requires Valid(t, b)
    ensures |b| <= Tallest(t)
    decreases |b|
  {
    if |b| > 0 {
      TallestBound(Kids(t)[b[0]], b[1..]);
      TallestFromBound(t, 0, b[0]);
    }
  }

  /** A child, from `i` on, of greatest height. */
  function TallestChild<D>(t: HNode<D>, i: nat): (k: nat)
    requires i < |Kids(t)|
    ensures i <= k < |Kids(t)| && Tallest(Kids(t)[k]) == TallestFrom(t, i)
    decreases |Kids(t)| - i
  {
    if i + 1 >= |Kids(t)| || Tallest(Kids(t)[i]) > TallestFrom(t, i + 1) then i
    else TallestChild(t, i + 1)
  }

  /** The address of a deepest node below `t`. */
  function Deepest<D>(t: HNode<D>): (b: Addr)
    ensures Valid(t, b) && |b| == Tallest(t)
    decreases t
  {
    if |Kids(t)| == 0 then []
    else
      var k := TallestChild(t, 0);
      var b := [k] + Deepest(Kids(t)[k]);
      assert b[1..] == Deepest(Kids(t)[k]);
      b
  }

  /** No node lies further below `x` than its height. */
  lemma BelowIsBounded<D>(t: HNode<D>, x: Addr, z: Addr)
    requires Valid(t, x) && Valid(t, z) && x <= z
    ensures |z| - |x| <= Tallest(At(t, x))
  {
    assert z == x + z[|x|..];
    AtAppend(t, x, z[|x|..]);
    TallestBound(At(t, x), z[|x|..]);
  }

  lemma ReachIsTallest<D>(t: HNode<D>, x: Addr)
    requires Valid(t, x)
    ensures Reach(Ats(EachBefore(t)), x) == Tallest(At(t, x))
  {
    EachBeforeOrder(t);
    var s := EachBefore(t);
    var order := Ats(s);
    var b := Deepest(At(t, x));
    AtAppend(t, x, b);
    ReachBound(order, x, x + b);
    forall z | z in order && x <= z ensures |z| - |x| <= Tallest(At(t, x)) {
      var k :| 0 <= k < |order| && order[k] == z;
      assert s[k] in s;
      BelowIsBounded(t, x, z);
    }
    ReachUpper(order, x, Tallest(At(t, x)));
  }

  /** Every position of the pre-order is heritable. */
  lemma AllHeritable<D>(t: HNode<D>)
    ensures var order := Ats(EachBefore(t));
      forall m | 0 <= m < |order| :: Heritable(order, m)
  {
    forall m | 0 <= m < |Ats(EachBefore(t))| ensures Heritable(Ats(EachBefore(t)), m) {
      PreOrderHeritable(t, m);
    }
  }

  /** A pass from all zero over an order that visits ancestors first
      computes the reach of every address. */
  lemma PassFromZero(h: map<Addr, int>, order: seq<Addr>)
    requires Closed(h) && forall k | 0 <= k < |order| :: order[k] in h
    requires forall x | x in h :: h[x] == 0
    requires forall m | 0 <= m < |order| :: Heritable(order, m)
    ensures forall x | x in Pass(h, order) :: Pass(h, order)[x] == Reach(order, x)
  {
    assert [] + order == order;
    PassCorrect(h, [], order);
  }

  /** The pass leaves every node's height at its reach in the pre-order. */
  lemma HeightsAreReach<D>(t: HNode<D>)
    ensures var order := Ats(EachBefore(t));
      forall x | x in Heights(t) :: Heights(t)[x] == Reach(order, x)
  {
    var order := Ats(EachBefore(t));
    ZeroClosed(t);
    AllHeritable(t);
    PassFromZero(Zero(order), order);
  }

  /** After the pass every node's height is the length of the longest
      path from it down to a leaf. */
  lemma HeightsAreTallest<D>(t: HNode<D>, x: Addr)
    requires Valid(t, x)
    ensures Heights(t)[x] == Tallest(At(t, x))
  {
    HeightsAreReach(t);
    ReachIsTallest(t, x);
  }

  // ---------------------------------------------------------------------
  // hierarchy

  /** The heights of the pass written into the tree. */
  function SetHeights<D>(t: HNode<D>, h: map<Addr, int>, at: Addr): (r: HNode<D>)
    requires forall b | Valid(t, b) :: at + b in h
    ensures r.data == t.data && r.value == t.value && r.depth == t.depth
    ensures r.children.Null? == t.children.Null? && |Kids(r)| == |Kids(t)|
    decreases t, 1
  {
    assert Valid(t, []) && at + [] == at;
    t.(height := h[at], children := if t.children.Null? then Null else List(SetHeightsAll(t, h, at)))
  }

  function SetHeightsAll<D>(t: HNode<D>, h: map<Addr, int>, at: Addr): (r: seq<HNode<D>>)
    requires forall b | Valid(t, b) :: at + b in h
    ensures |r| == |Kids(t)|
    decreases t, 0
  {
    forall i | 0 <= i < |Kids(t)| {
      ChildCovered(t, h, at, i);
    }
    seq(|Kids(t)|, i requires 0 <= i < |Kids(t)| => SetHeights(Kids(t)[i], h, at + [i]))
  }

  lemma ChildCovered<D>(t: HNode<D>, h: map<Addr, int>, at: Addr, i: nat)
    requires forall b | Valid(t, b) :: at + b in h
    requires i < |Kids(t)|
    ensures forall b | Valid(Kids(t)[i], b) :: at + [i] + b in h
  {
    forall b | Valid(Kids(t)[i], b) ensures at + [i] + b in h {
      assert ([i] + b)[1..] == b;
      assert Valid(t, [i] + b);
      assert at + [i] + b == at + ([i] + b);
    }
  }

  /** `hierarchy`: grow the tree from the root datum (values copied only
      when the root datum has one), then run the height pass. */
  function Hierarchy<P>(d: Datum<P>): HNode<Datum<P>> {
    var g := Grow(d, d.value.Some?, 0);
    var h := Heights(g);
    assert forall b | Valid(g, b) :: [] + b in h by {
      forall b | Valid(g, b) ensures [] + b in h {
        assert [] + b == b;
      }
    }
    SetHeights(g, h, [])
  }

  lemma {:induction false} SetHeightsAt<D>(t: HNode<D>, h: map<Addr, int>, at: Addr, a: Addr)
    requires forall b | Valid(t, b) :: at + b in h
    ensures Valid(SetHeights(t, h, at), a) <==> Valid(t, a)
    ensures Valid(t, a) ==> var n, m := At(SetHeights(t, h, at), a), At(t, a);
      && at + a in h && n.height == h[at + a] && n.data == m.data && n.value == m.value && n.depth == m.depth
      && n.children.Null? == m.children.Null? && |Kids(n)| == |Kids(m)| && Tallest(n) == Tallest(m)
    decreases |a|
  {
    var r := SetHeights(t, h, at);
    if |a| == 0 {
      assert a == [] && at + a == at;
      assert At(r, a) == r && r.height == h[at];
      TallestKept(t, h, at);
    } else if a[0] < |Kids(t)| {
      var i := a[0];
      var c := Kids(t)[i];
      ChildCovered(t, h, at, i);
      SetHeightsAt(c, h, at + [i], a[1..]);
      assert at + [i] + a[1..] == at + a;
    }
  }

  lemma {:induction false} TallestKept<D>(t: HNode<D>, h: map<Addr, int>, at: Addr)
    requires forall b | Valid(t, b) :: at + b in h
    ensures Tallest(SetHeights(t, h, at)) == Tallest(t)
    decreases t, 1
  {
    TallestFromKept(t, h, at, 0);
  }

  lemma {:induction false} TallestFromKept<D>(t: HNode<D>, h: map<Addr, int>, at: Addr, i: nat)
    requires forall b | Valid(t, b) :: at + b in h
    ensures TallestFrom(SetHeights(t, h, at), i) == TallestFrom(t, i)
    decreases t, 0, |Kids(t)| - i
  {
    if i < |Kids(t)| {
      var c := Kids(t)[i];
      ChildCovered(t, h, at, i);
      TallestKept(c, h, at + [i]);
      TallestFromKept(t, h, at, i + 1);
    }
  }

  /** The built tree has one node per datum, at the same address, holding
      that datum; its depth is its distance from the root; it carries the
      datum's value when the root datum has one and no value otherwise;
      and no node has an empty children list. */
  lemma HierarchyShape<P>(d: Datum<P>, a: Addr)
    ensures Valid(Hierarchy(d), a) <==> DValid(d, a)
    ensures DValid(d, a) ==> var n := At(Hierarchy(d), a);
      && n.data == DAt(d, a) && n.depth == |a|
      && n.value == (if d.value.Some? then DAt(d, a).value else None)
      && (n.children.List? ==> |n.children.nodes| > 0)
  {
    var g := Grow(d, d.value.Some?, 0);
    GrowShape(d, d.value.Some?, 0, a);
    assert forall b | Valid(g, b) :: [] + b in Heights(g) by {
      forall b | Valid(g, b) ensures [] + b in Heights(g) {
        assert [] + b == b;
      }
    }
    SetHeightsAt(g, Heights(g), [], a);
  }

  /** Every node's height in the built tree is the length of the longest
      path from it down to a leaf. */
  lemma HierarchyHeights<P>(d: Datum<P>, a: Addr)
    requires Valid(Hierarchy(d), a)
    ensures At(Hierarchy(d), a).height == Tallest(At(Hierarchy(d), a))
  {
    var g := Grow(d, d.value.Some?, 0);
    assert forall b | Valid(g, b) :: [] + b in Heights(g) by {
      forall b | Valid(g, b) ensures [] + b in Heights(g) {
        assert [] + b == b;
      }
    }
    SetHeightsAt(g, Heights(g), [], a);
    assert [] + a == a;
    HeightsAreTallest(g, a);
  }
}
