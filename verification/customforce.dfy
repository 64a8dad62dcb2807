/** CustomizableForce: the per-node arrays of a force, kept as one sequence
    of per-node records (`cells`), grown on demand and re-initialised
    when the node list changes. */
module CustomForces {
  import opened ForceBase

  /** The initial length of every per-node array. */
  const DefaultCapacity: nat := 50

  /** One step of a list change: the positions [from, to) it reports and
      whether it removed elements (a replacement counts as a removal). */
  datatype Change = Change(from: nat, to: nat, removed: bool)

  function Max(a: int, b: int): int {
    if a < b then b else a
  }

  /** The static `ensureCapacity(array, capacity)`: an array already long
      enough is returned as it is, a shorter one is copied into a new array
      of exactly `capacity` elements padded with the zero value `blank`. */
  function EnsureCapacity<T>(a: seq<T>, capacity: int, blank: T): (r: seq<T>)
    ensures |a| >= capacity ==> r == a
    ensures |a| < capacity ==> |r| == capacity && r[..|a|] == a
    ensures |a| < capacity ==> forall k | |a| <= k < capacity :: r[k] == blank
  {
    if |a| >= capacity then a else a + seq(capacity - |a|, _ => blank)
  }

  /** `initNode(i, nodes[i])` for every i in [from, to). */
  function InitRange<T>(cells: seq<T>, nodes: seq<Node>, init: Node -> T, from: nat, to: nat): (r: seq<T>)
    requires from <= to <= |nodes| && to <= |cells|
    decreases (to as int) - (from as int)
    ensures |r| == |cells|
    ensures forall i | 0 <= i < |cells| :: r[i] == (if from <= i < to then init(nodes[i]) else cells[i])
  {
    if from == to then cells
    else InitRange(cells[from := init(nodes[from])], nodes, init, from + 1, to)
  }

  /** `initialize()`: make room for every node, then initialise each. */
  function Initialize<T>(cells: seq<T>, nodes: seq<Node>, init: Node -> T, blank: T): (r: seq<T>)
    ensures |r| == Max(|cells|, |nodes|)
    ensures forall i | 0 <= i < |nodes| :: r[i] == init(nodes[i])
    ensures forall i | |nodes| <= i < |cells| :: r[i] == cells[i]
  {
    InitRange(EnsureCapacity(cells, |nodes|, blank), nodes, init, 0, |nodes|)
  }

  /** The reported ranges up to the first removal lie inside the new list. */
  predicate RangesOk(steps: seq<Change>, n: nat) {
    |steps| > 0 && !steps[0].removed ==> steps[0].from <= steps[0].to <= n && RangesOk(steps[1..], n)
  }

  predicate HasRemoval(steps: seq<Change>) {
    exists s | s in steps :: s.removed
  }

  predicate InAdded(i: nat, steps: seq<Change>) {
    exists s | s in steps :: s.from <= i < s.to
  }

  /** The loop over the change steps: ranges are initialised until the
      first removal, which stops the loop and is reported. */
  function Steps<T>(cells: seq<T>, nodes: seq<Node>, steps: seq<Change>, init: Node -> T): (r: (seq<T>, bool))
    requires RangesOk(steps, |nodes|) && |nodes| <= |cells|
    ensures |r.0| == |cells|
    ensures r.1 <==> HasRemoval(steps)
    ensures !r.1 ==> forall i | 0 <= i < |cells| :: r.0[i] == (if i < |nodes| && InAdded(i, steps) then init(nodes[i]) else cells[i])
    ensures forall i | |nodes| <= i < |cells| :: r.0[i] == cells[i]
    decreases |steps|
  {
    if |steps| == 0 then (cells, false)
    else if steps[0].removed then (cells, true)
    else
      var s := steps[0];
      var rest := Steps(InitRange(cells, nodes, init, s.from, s.to), nodes, steps[1..], init);
      assert steps == [s] + steps[1..];
      assert forall i: nat :: InAdded(i, steps) <==> s.from <= i < s.to || InAdded(i, steps[1..]);
      rest
  }

  /** `nodesChanged`: capacity for the new size first; then, if any step
      is a removal, every node is re-initialised; otherwise exactly the
      reported ranges are. */
  function NodesChanged<T>(cells: seq<T>, nodes: seq<Node>, steps: seq<Change>, init: Node -> T, blank: T): (r: seq<T>)
    requires RangesOk(steps, |nodes|)
    ensures |r| == Max(|cells|, |nodes|)
    ensures HasRemoval(steps) ==> forall i | 0 <= i < |nodes| :: r[i] == init(nodes[i])
    ensures !HasRemoval(steps) ==> forall i | 0 <= i < |nodes| ::
      r[i] == (if InAdded(i, steps) then init(nodes[i]) else EnsureCapacity(cells, |nodes|, blank)[i])
    ensures forall i | |nodes| <= i < |cells| :: r[i] == cells[i]
  {
    var grown := EnsureCapacity(cells, |nodes|, blank);
    var s := Steps(grown, nodes, steps, init);
    if s.1 then Initialize(s.0, nodes, init, blank) else s.0
  }

  /** What `nodesChanged` leaves in a force's cells: room for every node;
      after a removal every node's cell re-initialised; otherwise exactly
      the cells of the reported ranges re-initialised, the others kept as
      they were (zero where the array grew). Cells beyond the list stay. */
  ghost predicate Renewed<T>(before: seq<T>, after: seq<T>, nodes: seq<Node>, steps: seq<Change>, init: Node -> T, blank: T) {
    && |after| == Max(|before|, |nodes|)
    && (forall i | 0 <= i < |nodes| :: after[i] ==
          (if HasRemoval(steps) || InAdded(i, steps) then init(nodes[i]) else if i < |before| then before[i] else blank))
    && (forall i | |nodes| <= i < |before| :: after[i] == before[i])
  }

  lemma NodesChangedRenews<T>(cells: seq<T>, nodes: seq<Node>, steps: seq<Change>, init: Node -> T, blank: T)
    requires RangesOk(steps, |nodes|)
    ensures Renewed(cells, NodesChanged(cells, nodes, steps, init, blank), nodes, steps, init, blank)
  {
    var grown := EnsureCapacity(cells, |nodes|, blank);
    forall i | 0 <= i < |nodes| && i < |cells|
      ensures grown[i] == cells[i]
    {
      if |cells| < |nodes| {
        assert grown[..|cells|][i] == cells[i];
      }
    }
  }

  /** Re-initialising is idempotent: after `initialize` a second one
      changes nothing. */
  lemma InitializeIdempotent<T>(cells: seq<T>, nodes: seq<Node>, init: Node -> T, blank: T)
    ensures var once := Initialize(cells, nodes, init, blank);
      Initialize(once, nodes, init, blank) == once
  {
  }

  /** Whenever no step removes anything and every position of the new list
      lies in some reported range, the result is what a full `initialize`
      gives. */
  lemma CoveredChangeIsInitialize<T>(cells: seq<T>, nodes: seq<Node>, steps: seq<Change>, init: Node -> T, blank: T)
    requires RangesOk(steps, |nodes|) && !HasRemoval(steps)
    requires forall i | 0 <= i < |nodes| :: InAdded(i, steps)
    ensures NodesChanged(cells, nodes, steps, init, blank) == Initialize(cells, nodes, init, blank)
  {
  }
}
