/** The round-by-round layering the Sankey layout runs for depths and for
    heights. Nodes are the indices `0 .. |adj| - 1` and `adj[u]` lists the
    neighbours `u` reaches over one link (repeats allowed). Every node
    starts in the first round; each round stamps the round number on its
    members and moves on to their neighbours; a round count above the node
    count is reported as a circular link. The stamp a node keeps is the
    length of the longest walk ending at it, and the error is raised
    exactly when the links contain a cycle. */
module Layering {
  import opened Wrappers

  type Adj = seq<seq<nat>>

  /** Every neighbour is a node. */
  predicate Closed(adj: Adj) {
    forall u, k :: 0 <= u < |adj| && 0 <= k < |adj[u]| ==> adj[u][k] < |adj|
  }

  /** A walk: one or more nodes, each a neighbour of the one before. */
  predicate Walk(adj: Adj, w: seq<nat>) {
    |w| >= 1
    && (forall i :: 0 <= i < |w| ==> w[i] < |adj|)
    && (forall i :: 0 <= i < |w| - 1 ==> w[i + 1] in adj[w[i]])
  }

  /** Some walk of `x` steps ends at `v`. */
  ghost predicate Ends(adj: Adj, v: nat, x: nat) {
    exists w :: Walk(adj, w) && |w| == x + 1 && w[x] == v
  }

  /** Some walk of `x` steps starts at `v`. */
  ghost predicate Starts(adj: Adj, v: nat, x: nat) {
    exists w :: Walk(adj, w) && |w| == x + 1 && w[0] == v
  }

  /** The longest walk ending at `v` has exactly `d` steps. */
  ghost predicate LongestTo(adj: Adj, v: nat, d: nat) {
    Ends(adj, v, d) && forall x :: x > d ==> !Ends(adj, v, x)
  }

  /** The longest walk starting at `v` has exactly `d` steps. */
  ghost predicate LongestFrom(adj: Adj, v: nat, d: nat) {
    Starts(adj, v, d) && forall x :: x > d ==> !Starts(adj, v, x)
  }

  /** A closed walk of at least one step. */
  ghost predicate Cyclic(adj: Adj) {
    exists c :: Walk(adj, c) && |c| >= 2 && c[0] == c[|c| - 1]
  }

  /** The numbers below `n`. */
  function Below(n: nat): (r: set<nat>)
    ensures forall v: nat :: v in r <==> v < n
  {
    if n == 0 then {} else Below(n - 1) + {n - 1}
  }

  /** Every node. */
  function All(adj: Adj): (r: set<nat>)
    ensures forall v: nat :: v in r <==> v < |adj|
  {
    Below(|adj|)
  }

  /** The next round: every neighbour of a member of this one. */
  function Next(adj: Adj, cur: set<nat>): (r: set<nat>)
    requires Closed(adj)
    ensures forall v :: v in r <==> exists u :: u in cur && u < |adj| && v in adj[u]
    ensures forall v :: v in r ==> v < |adj|
  {
    set u, k | u in cur && u < |adj| && 0 <= k < |adj[u]| :: adj[u][k]
  }

  /** `level` with the members of `cur` stamped with `x`. */
  function Mark(level: seq<int>, cur: set<nat>, x: nat): (r: seq<int>)
    ensures |r| == |level|
    ensures forall v :: 0 <= v < |r| ==> r[v] == if v in cur then x else level[v]
  {
    seq(|level|, v requires 0 <= v < |level| => if v in cur then x else level[v])
  }

  /** The loop from round `x` on: `cur` is this round, `level` the stamps
      so far. */
  function Rounds(adj: Adj, cur: set<nat>, x: nat, level: seq<int>): (r: Result<seq<int>, string>)
    requires Closed(adj) && |level| == |adj| && x <= |adj|
    ensures r.Ok? ==> |r.value| == |adj|
    decreases |adj| - x
  {
    if cur == {} then Ok(level)
    else
      var marked := Mark(level, cur, x);
      if x + 1 > |adj| then Err("circular link")
      else Rounds(adj, Next(adj, cur), x + 1, marked)
  }

  /** The whole loop, every node in the first round; `prior` holds the
      stamps before it. */
  function Layers(adj: Adj, prior: seq<int>): (r: Result<seq<int>, string>)
    requires Closed(adj) && |prior| == |adj|
    ensures r.Ok? ==> |r.value| == |adj|
  {
    Rounds(adj, All(adj), 0, prior)
  }

  /** The members of round `x`: the ends of walks of `x` steps. */
  ghost function Reach(adj: Adj, x: nat): (r: set<nat>)
    ensures forall v: nat :: v in r <==> v < |adj| && Ends(adj, v, x)
  {
    set v: nat | v < |adj| && Ends(adj, v, x)
  }

  // Walk algebra

  lemma WalkTail(adj: Adj, w: seq<nat>)
    requires Walk(adj, w) && |w| >= 2
    ensures Walk(adj, w[1..])
  {
    forall i | 0 <= i < |w| - 2
      ensures w[1..][i + 1] in adj[w[1..][i]]
    {
      assert w[1..][i + 1] == w[i + 2] && w[1..][i] == w[i + 1];
    }
  }

  lemma WalkSlice(adj: Adj, w: seq<nat>, i: nat, j: nat)
    requires Walk(adj, w) && i < j <= |w|
    ensures Walk(adj, w[i..j])
  {
    forall k | 0 <= k < j - i - 1
      ensures w[i..j][k + 1] in adj[w[i..j][k]]
    {
      assert w[i..j][k + 1] == w[i + k + 1] && w[i..j][k] == w[i + k];
    }
  }

  lemma WalkJoin(adj: Adj, a: seq<nat>, b: seq<nat>)
    requires Walk(adj, a) && Walk(adj, b) && b[0] in adj[a[|a| - 1]]
    ensures Walk(adj, a + b)
  {
    var w := a + b;
    forall i | 0 <= i < |w| - 1
      ensures w[i + 1] in adj[w[i]]
    {
      if i < |a| - 1 {
        assert w[i] == a[i] && w[i + 1] == a[i + 1];
      } else if i == |a| - 1 {
        assert w[i] == a[|a| - 1] && w[i + 1] == b[0];
      } else {
        assert w[i] == b[i - |a|] && w[i + 1] == b[i - |a| + 1];
      }
    }
  }

  lemma WalkStep(adj: Adj, w: seq<nat>, v: nat)
    requires Walk(adj, w) && v < |adj| && v in adj[w[|w| - 1]]
    ensures Walk(adj, w + [v])
  {
    WalkJoin(adj, w, [v]);
  }

  /** One step from `u` to a neighbour `v` is a walk ending at `v`. */
  lemma StepEnds(adj: Adj, u: nat, v: nat)
    requires u < |adj| && v < |adj| && v in adj[u]
    ensures Ends(adj, v, 1)
  {
    assert Walk(adj, [u, v]);
  }

  /** No walk ending at `v` is longer than the longest one. */
  lemma LongestBounds(adj: Adj, v: nat, d: nat, x: nat)
    requires LongestTo(adj, v, d) && Ends(adj, v, x)
    ensures x <= d
  {
  }

  /** Rounds shrink: the end of a longer walk ends a shorter one. */
  lemma EndsShorter(adj: Adj, v: nat, x: nat, y: nat)
    requires Ends(adj, v, x) && y <= x
    ensures Ends(adj, v, y)
  {
    var w :| Walk(adj, w) && |w| == x + 1 && w[x] == v;
    WalkSlice(adj, w, x - y, |w|);
    assert w[x - y..][y] == v;
  }

  lemma StartsShorter(adj: Adj, v: nat, x: nat, y: nat)
    requires Starts(adj, v, x) && y <= x
    ensures Starts(adj, v, y)
  {
    var w :| Walk(adj, w) && |w| == x + 1 && w[0] == v;
    WalkSlice(adj, w, 0, y + 1);
  }

  lemma ReachFirst(adj: Adj)
    ensures Reach(adj, 0) == All(adj)
  {
    forall v: nat | v < |adj|
      ensures Ends(adj, v, 0)
    {
      assert Walk(adj, [v]);
    }
  }

  lemma ReachNext(adj: Adj, x: nat)
    requires Closed(adj)
    ensures Next(adj, Reach(adj, x)) == Reach(adj, x + 1)
  {
    forall v | v in Next(adj, Reach(adj, x))
      ensures Ends(adj, v, x + 1)
    {
      var u :| u in Reach(adj, x) && u < |adj| && v in adj[u];
      var w :| Walk(adj, w) && |w| == x + 1 && w[x] == u;
      WalkStep(adj, w, v);
      assert (w + [v])[x + 1] == v;
    }
    forall v | v in Reach(adj, x + 1)
      ensures v in Next(adj, Reach(adj, x))
    {
      var w :| Walk(adj, w) && |w| == x + 2 && w[x + 1] == v;
      WalkSlice(adj, w, 0, x + 1);
      assert w[..x + 1][x] == w[x];
      assert Ends(adj, w[x], x);
    }
  }

  /** What the stamps mean after the rounds before `x`: each node's stamp
      is the longest walk ending at it among those of fewer than `x`
      steps. */
  ghost predicate Stamped(adj: Adj, x: nat, level: seq<int>) {
    |level| == |adj|
    && (x == 0 || forall v :: 0 <= v < |level| ==>
          0 <= level[v] < x && Ends(adj, v, level[v])
          && (level[v] + 1 < x ==> !Ends(adj, v, level[v] + 1)))
  }

  /** Every stamp is the length of the longest walk ending at its node. */
  ghost predicate Longest(adj: Adj, level: seq<int>) {
    forall v :: 0 <= v < |level| ==> level[v] >= 0 && LongestTo(adj, v, level[v])
  }

  /** Once a round is empty, so is every later one, and the stamps are
      final. */
  lemma DryRounds(adj: Adj, x: nat, level: seq<int>)
    requires x > 0 && Stamped(adj, x, level) && Reach(adj, x) == {}
    ensures forall y: nat :: y >= x ==> Reach(adj, y) == {}
    ensures Longest(adj, level)
  {
    forall y: nat | y >= x
      ensures Reach(adj, y) == {}
    {
      forall v: nat | v < |adj|
        ensures !Ends(adj, v, y)
      {
        assert v !in Reach(adj, x);
        if Ends(adj, v, y) {
          EndsShorter(adj, v, y, x);
        }
      }
    }
    forall v | 0 <= v < |level|
      ensures LongestTo(adj, v, level[v])
    {
      assert v !in Reach(adj, x);
      forall y | y > level[v]
        ensures !Ends(adj, v, y)
      {
        if Ends(adj, v, y) {
          EndsShorter(adj, v, y, level[v] + 1);
        }
      }
    }
  }

  /** Stamping round `x` extends the meaning of the stamps to `x + 1`. */
  lemma MarkStamped(adj: Adj, x: nat, level: seq<int>)
    requires Stamped(adj, x, level)
    requires x == 0 ==> Reach(adj, 0) == All(adj)
    ensures Stamped(adj, x + 1, Mark(level, Reach(adj, x), x))
  {
    var cur := Reach(adj, x);
    var marked := Mark(level, cur, x);
    forall v | 0 <= v < |marked|
      ensures 0 <= marked[v] < x + 1 && Ends(adj, v, marked[v])
              && (marked[v] + 1 < x + 1 ==> !Ends(adj, v, marked[v] + 1))
    {
      if x == 0 {
        assert v in All(adj);
      }
      assert v in cur <==> Ends(adj, v, x);
      StampStep(adj, x, v, level[v], marked[v]);
    }
  }

  /** One node's stamp after round `x`: the round's length when a walk of
      that length ends at the node, its old stamp otherwise. */
  lemma StampStep(adj: Adj, x: nat, v: nat, s: int, t: int)
    requires t == if Ends(adj, v, x) then x else s
    requires x == 0 ==> Ends(adj, v, 0)
    requires x > 0 ==> 0 <= s < x && Ends(adj, v, s) && (s + 1 < x ==> !Ends(adj, v, s + 1))
    ensures 0 <= t < x + 1 && Ends(adj, v, t) && (t + 1 < x + 1 ==> !Ends(adj, v, t + 1))
  {
  }

  /** The loop from round `x` fails exactly when the rounds have not run
      dry by the node count. */
  lemma {:induction false} RoundsFail(adj: Adj, x: nat, level: seq<int>)
    requires Closed(adj) && x <= |adj| && |level| == |adj|
    ensures Rounds(adj, Reach(adj, x), x, level).Err? <==> Reach(adj, |adj|) != {}
    decreases |adj| - x
  {
    if Reach(adj, x) == {} {
      StaysDry(adj, x);
    } else if x + 1 <= |adj| {
      RoundsStep(adj, x, level);
      RoundsFail(adj, x + 1, Mark(level, Reach(adj, x), x));
    } else {
      RoundsFull(adj, x, level);
    }
  }

  lemma StaysDry(adj: Adj, x: nat)
    requires x <= |adj| && Reach(adj, x) == {}
    ensures Reach(adj, |adj|) == {}
  {
    forall v: nat | v < |adj|
      ensures !Ends(adj, v, |adj|)
    {
      assert v !in Reach(adj, x);
      if Ends(adj, v, |adj|) {
        EndsShorter(adj, v, |adj|, x);
      }
    }
  }

  /** When the loop from round `x` succeeds, every stamp is the longest
      walk ending at its node. */
  lemma {:induction false} RoundsLongest(adj: Adj, cur: set<nat>, x: nat, level: seq<int>)
    requires Closed(adj) && x <= |adj| && Stamped(adj, x, level) && cur == Reach(adj, x)
    requires x == 0 ==> Reach(adj, 0) == All(adj)
    ensures Rounds(adj, cur, x, level).Ok? ==> Longest(adj, Rounds(adj, cur, x, level).value)
    decreases |adj| - x
  {
    if cur == {} {
      RoundsDry(adj, x, level);
    } else if x + 1 <= |adj| {
      var next, marked := Next(adj, cur), Mark(level, cur, x);
      MarkStamped(adj, x, level);
      ReachNext(adj, x);
      RoundsLongest(adj, next, x + 1, marked);
      RoundsUnfold(adj, cur, x, level);
    }
  }

  /** A non-empty round before the last passes on to the next one. */
  lemma RoundsUnfold(adj: Adj, cur: set<nat>, x: nat, level: seq<int>)
    requires Closed(adj) && |level| == |adj| && x + 1 <= |adj| && cur != {}
    ensures Rounds(adj, cur, x, level) == Rounds(adj, Next(adj, cur), x + 1, Mark(level, cur, x))
  {
  }

  /** A round that is still not empty after as many rounds as nodes
      fails the loop. */
  lemma RoundsFull(adj: Adj, x: nat, level: seq<int>)
    requires Closed(adj) && x == |adj| && |level| == |adj| && Reach(adj, x) != {}
    ensures Rounds(adj, Reach(adj, x), x, level).Err?
  {
  }

  /** A non-empty round before the last stamps its nodes and passes on
      to the nodes one step further. */
  lemma RoundsStep(adj: Adj, x: nat, level: seq<int>)
    requires Closed(adj) && x + 1 <= |adj| && |level| == |adj| && Reach(adj, x) != {}
    ensures Rounds(adj, Reach(adj, x), x, level) == Rounds(adj, Reach(adj, x + 1), x + 1, Mark(level, Reach(adj, x), x))
  {
    ReachNext(adj, x);
  }

  /** An empty round ends the loop with the stamps final. */
  lemma RoundsDry(adj: Adj, x: nat, level: seq<int>)
    requires Closed(adj) && x <= |adj| && Stamped(adj, x, level)
    requires x == 0 ==> Reach(adj, 0) == All(adj)
    requires Reach(adj, x) == {}
    ensures Rounds(adj, Reach(adj, x), x, level) == Ok(level)
    ensures Reach(adj, |adj|) == {}
    ensures Longest(adj, level)
  {
    if x == 0 {
      assert All(adj) == {};
      assert 0 !in All(adj);
      assert |adj| == 0;
    } else {
      DryRounds(adj, x, level);
      assert Reach(adj, |adj|) == {};
    }
  }

  /** The layering fails exactly when some walk has as many steps as there
      are nodes; otherwise every node's stamp is the longest walk ending
      at it. */
  lemma LayersAreLongestWalks(adj: Adj, prior: seq<int>)
    requires Closed(adj) && |prior| == |adj|
    ensures Layers(adj, prior).Err? <==> Reach(adj, |adj|) != {}
    ensures Layers(adj, prior).Ok? ==>
      var r := Layers(adj, prior).value;
      |r| == |adj| && forall v :: 0 <= v < |r| ==> r[v] >= 0 && LongestTo(adj, v, r[v])
  {
    ReachFirst(adj);
    RoundsFail(adj, 0, prior);
    RoundsLongest(adj, Reach(adj, 0), 0, prior);
  }

  // Cycles

  /** `c` repeated `t` more times after itself. */
  function Pump(c: seq<nat>, t: nat): (r: seq<nat>)
    requires |c| >= 2
    ensures |r| >= t + 2 && r[|r| - 1] == c[|c| - 1] && r[0] == c[0]
  {
    if t == 0 then c else Pump(c, t - 1) + c[1..]
  }

  lemma {:induction false} PumpWalks(adj: Adj, c: seq<nat>, t: nat)
    requires Walk(adj, c) && |c| >= 2 && c[0] == c[|c| - 1]
    ensures Walk(adj, Pump(c, t))
  {
    if t > 0 {
      PumpWalks(adj, c, t - 1);
      WalkTail(adj, c);
      WalkJoin(adj, Pump(c, t - 1), c[1..]);
    }
  }

  /** A cycle gives walks of every length, so the rounds never run dry. */
  lemma CycleReaches(adj: Adj, x: nat)
    requires Cyclic(adj)
    ensures Reach(adj, x) != {}
  {
    var c :| Walk(adj, c) && |c| >= 2 && c[0] == c[|c| - 1];
    PumpWalks(adj, c, x);
    var w := Pump(c, x);
    WalkSlice(adj, w, 0, x + 1);
    assert w[..x + 1][x] == w[x];
    assert w[x] in Reach(adj, x);
  }

  /** The entries of a sequence. */
  function Elems(s: seq<nat>): (r: set<nat>)
    ensures forall x :: x in r <==> x in s
  {
    set x | x in s
  }

  lemma {:induction false} DistinctSize(s: seq<nat>)
    requires forall i, j :: 0 <= i < j < |s| ==> s[i] != s[j]
    ensures |Elems(s)| == |s|
  {
    if s != [] {
      var t := s[..|s| - 1];
      DistinctSize(t);
      var last := s[|s| - 1];
      var a := Elems(t);
      assert s == t + [last];
      assert last !in a;
      assert Elems(s) == a + {last};
      assert |a + {last}| == |a| + 1;
    }
  }

  lemma {:induction false} BelowSize(n: nat)
    ensures |Below(n)| == n
  {
    if n > 0 {
      BelowSize(n - 1);
      var prev := Below(n - 1);
      assert n - 1 !in prev;
      assert Below(n) == prev + {n - 1};
      assert |prev + {n - 1}| == |prev| + 1;
    }
  }

  /** More than `n` entries below `n` repeat one. */
  lemma Pigeonhole(s: seq<nat>, n: nat)
    requires |s| > n && forall i :: 0 <= i < |s| ==> s[i] < n
    ensures exists i, j :: 0 <= i < j < |s| && s[i] == s[j]
  {
    if forall i, j :: 0 <= i < j < |s| ==> s[i] != s[j] {
      DistinctSize(s);
      BelowSize(n);
      var vals := Elems(s);
      assert vals <= Below(n);
      SubsetSize(vals, Below(n));
      assert false;
    }
  }

  lemma SubsetSize(a: set<nat>, b: set<nat>)
    requires a <= b
    ensures |a| <= |b|
  {
    assert b == a + (b - a);
  }

  /** The rounds run dry within the node count exactly when the links
      have no cycle. */
  lemma ReachLimitIsCycle(adj: Adj)
    ensures Reach(adj, |adj|) != {} <==> Cyclic(adj)
  {
    if Cyclic(adj) {
      CycleReaches(adj, |adj|);
    }
    if Reach(adj, |adj|) != {} {
      var v :| v in Reach(adj, |adj|);
      var w :| Walk(adj, w) && |w| == |adj| + 1 && w[|adj|] == v;
      Pigeonhole(w, |adj|);
      var i, j :| 0 <= i < j < |w| && w[i] == w[j];
      WalkSlice(adj, w, i, j + 1);
      var c := w[i..j + 1];
      assert c[0] == w[i] && c[|c| - 1] == w[j];
    }
  }

  /** The layering reports a circular link exactly when there is a cycle. */
  lemma LayersFailOnCycles(adj: Adj, prior: seq<int>)
    requires Closed(adj) && |prior| == |adj|
    ensures Layers(adj, prior).Err? <==> Cyclic(adj)
  {
    LayersAreLongestWalks(adj, prior);
    ReachLimitIsCycle(adj);
  }

  // Reversed links

  /** `inv` lists, for each node, the nodes that list it as a neighbour. */
  ghost predicate Converse(adj: Adj, inv: Adj) {
    |adj| == |inv|
    && forall u: nat, v: nat :: u < |adj| && v < |adj| ==> (v in adj[u] <==> u in inv[v])
  }

  function Backward(w: seq<nat>): (r: seq<nat>)
    ensures |r| == |w| && forall i :: 0 <= i < |w| ==> r[i] == w[|w| - 1 - i]
  {
    seq(|w|, i requires 0 <= i < |w| => w[|w| - 1 - i])
  }

  lemma WalkBackward(adj: Adj, inv: Adj, w: seq<nat>)
    requires Converse(adj, inv) && Walk(inv, w)
    ensures Walk(adj, Backward(w))
  {
    var b := Backward(w);
    forall i | 0 <= i < |b| - 1
      ensures b[i + 1] in adj[b[i]]
    {
      var j := |w| - 2 - i;
      assert b[i] == w[j + 1] && b[i + 1] == w[j];
      assert w[j + 1] in inv[w[j]];
    }
  }

  /** Walks ending at `v` over the reversed links are the walks starting
      at `v` over the links. */
  lemma EndsConverse(adj: Adj, inv: Adj, v: nat, x: nat)
    requires Converse(adj, inv)
    ensures Ends(inv, v, x) <==> Starts(adj, v, x)
  {
    if Ends(inv, v, x) {
      var w :| Walk(inv, w) && |w| == x + 1 && w[x] == v;
      WalkBackward(adj, inv, w);
      assert Backward(w)[0] == v;
    }
    if Starts(adj, v, x) {
      var w :| Walk(adj, w) && |w| == x + 1 && w[0] == v;
      assert Converse(inv, adj);
      WalkBackward(inv, adj, w);
      assert Backward(w)[x] == v;
    }
  }

  lemma CyclicConverse(adj: Adj, inv: Adj)
    requires Converse(adj, inv) && Cyclic(inv)
    ensures Cyclic(adj)
  {
    var c :| Walk(inv, c) && |c| >= 2 && c[0] == c[|c| - 1];
    WalkBackward(adj, inv, c);
    var b := Backward(c);
    assert b[0] == c[|c| - 1] && b[|b| - 1] == c[0];
  }

  /** Layering over the reversed links stamps each node with the longest
      walk starting at it, and fails exactly on the same cycles. */
  lemma ConverseLayers(adj: Adj, inv: Adj, prior: seq<int>)
    requires Closed(inv) && Converse(adj, inv) && |prior| == |inv|
    ensures Layers(inv, prior).Err? <==> Cyclic(adj)
    ensures Layers(inv, prior).Ok? ==>
      var r := Layers(inv, prior).value;
      |r| == |adj| && forall v :: 0 <= v < |r| ==> r[v] >= 0 && LongestFrom(adj, v, r[v])
  {
    LayersFailOnCycles(inv, prior);
    if Cyclic(adj) {
      assert Converse(inv, adj);
      CyclicConverse(inv, adj);
    }
    if Cyclic(inv) {
      CyclicConverse(adj, inv);
    }
    LayersAreLongestWalks(inv, prior);
    if Layers(inv, prior).Ok? {
      var r := Layers(inv, prior).value;
      forall v | 0 <= v < |r|
        ensures LongestFrom(adj, v, r[v])
      {
        EndsConverse(adj, inv, v, r[v]);
        forall x | x > r[v]
          ensures !Starts(adj, v, x)
        {
          EndsConverse(adj, inv, v, x);
        }
      }
    }
  }
}
