# d3fx core in Dafny

This project models the core of d3fx, a Java port of parts of D3 for
JavaFX. Each part below is a pure Dafny function over immutable data, with
its contract proved.

- **Quadtree.** Covers the square extent and its doubling `cover`, and
  insertion with leaf splitting and coincident chains. Also covers the
  `quadTree`/`addAll` factory and the two traversals, `visit` (a pre-order
  that can prune) and `visitAfter` (a post-order).
- **Force simulation.** Covers the node initialisation of `ForceAnimation`
  (pins, the phyllotaxis spiral, velocity reset), its list listener, and
  `tick`: alpha cooling, the forces in order, then velocity decay and
  integration. Also covers `interpolate`.
- **Forces.** Covers the `Force` base class and the per-node arrays of
  `CustomizableForce`. The forces modelled are `LinkForce`, `ManyBodyForce`
  (Barnes-Hut over the quadtree), `CollideForce` (a quadtree with pruning),
  `XForce`/`YForce` (one definition with an axis), `RadialForce` and
  `CenterForce`.
- **Hierarchy.** Covers `HierarchyBuilder.hierarchy` with its
  `computeHeight` pass, and the operations of `AbstractNode`: `each`,
  `eachAfter`, `eachBefore`, `count`, `sum`, `sort`, `ancestors`,
  `leastCommonAncestor`, `path`, `descendants`, `leaves` and `links`.
- **Sankey layout, column part.** Covers `computeNodeLinks` (ids resolved
  through the id map, links wired into the nodes, optional sorting) and
  `computeNodeValues` with `NumberValueCalculator.sum`. Also covers the depth
  and height rounds with their cycle check, the layer assignment of
  `computeNodeLayers` under the four `Align` rules, and `computeLinkBreadths`.

How the model represents things:

- Java doubles are `real`. `NaN` is `None`, where the code tests for it.
- `Math.sqrt`, `cos`, `sin`, `pow` and `Math.random()` are parameters.
  - A `Maths` record carries `sqrt` as a subset type that is positive on
    positive arguments.
  - A `Random` is the sequence of draws, each in [0, 1). The draw 0.5, which
    would make a jiggle zero, is excluded.
  - Functions that draw take and return the index of the next draw.
- Mutable object graphs become values:
  - a hierarchy node is addressed by the path of child indices from the
    root;
  - Sankey nodes and links are addressed by their positions in the graph's
    lists;
  - the simulation's node list is a sequence of `Node` records, every
    force acts on that one list, and a force's per-node arrays are
    sequences.

Modules:

| file | module |
|---|---|
| wrappers.dfy | `Wrappers` (`Option`, `Result`) |
| quadnode.dfy, quadtree.dfy, quadvisit.dfy | `QuadNodes`, `QuadTrees`, `QuadVisits` |
| forcebase.dfy, customforce.dfy | `ForceBase`, `CustomForces` |
| linkforce.dfy, manybody.dfy, collide.dfy, positional.dfy | `LinkForces`, `ManyBodies`, `Collisions`, `PositionForces` |
| simulation.dfy | `Simulations` |
| hierarchy.dfy, hierarchyops.dfy, hierarchybuild.dfy | `Hierarchies`, `HierarchyOps`, `HierarchyBuilders` |
| layering.dfy | `Layering` (the depth/height rounds over an adjacency list) |
| sankey.dfy, sankeylayout.dfy, linkbreadths.dfy | `Sankeys`, `SankeyLayout`, `SankeyBreadths` |

Two places where the code departs from the D3 behaviour it ports:

- **List listener.** D3's simulation re-indexes every node whenever its
  node list is replaced. The listener of `ForceAnimation.java:65-74`
  only initialises the added ranges, so after a removal the remaining
  nodes keep their old indices. `Simulations.ListenAsWritten` models the
  listener as written; `Simulations.Listen` re-indexes (see Findings), and
  `Simulations.Update` runs `Listen`, followed by every force's own
  listener (`Simulations.Relist`).
- **`addAll` with NaN points.** `QuadTree.java:161-192` skips a point
  with a NaN coordinate when it computes the bounds, but still adds it, at
  the zero coordinates of its unfilled array slot. The model requires
  valid coordinates; see `QuadTrees.AddAll` under Left out.

## Model

| member | source | states |
|---|---|---|
| QuadNodes.NewInternal | d3fx-quadtree/src/main/java/ru/vzotov/d3fx/quadtree/QuadNode.java:18-21 | a new internal node has children and is not a leaf; its four slots are all empty |
| QuadNodes.NewLeaf | d3fx-quadtree/src/main/java/ru/vzotov/d3fx/quadtree/QuadNode.java:23-27 | a new leaf is a leaf without children; its datum heads a chain of length one |
| QuadNodes.Set | d3fx-quadtree/src/main/java/ru/vzotov/d3fx/quadtree/QuadNode.java:37-44 | after `set(i, c)`, `get(i)` is `c`; every other slot and the scratch are unchanged |
| QuadTrees.ChildIndex | d3fx-quadtree/src/main/java/ru/vzotov/d3fx/quadtree/QuadTree.java:246 | the slot `bottom << 1 \| right` is one of the four slots |
| QuadTrees.QuadrantOf | d3fx-quadtree/src/main/java/ru/vzotov/d3fx/quadtree/QuadTree.java:230-247 | a point inside a square lies in the quadrant its slot index names, and in no other |
| QuadTrees.GrowStep | d3fx-quadtree/src/main/java/ru/vzotov/d3fx/quadtree/QuadTree.java:121-145 | one doubling step doubles the side and keeps the old square as quadrant `i` of the new one; the distance to the point decreases |
| QuadTrees.Grow | d3fx-quadtree/src/main/java/ru/vzotov/d3fx/quadtree/QuadTree.java:121-145 | the doubling loop ends with a square that contains the old one and the point; a point already inside changes nothing |
| QuadTrees.GrowKeepsNode | d3fx-quadtree/src/main/java/ru/vzotov/d3fx/quadtree/QuadTree.java:121-149 | the wrapped subtree stays well placed in the grown square and keeps its elements |
| QuadTrees.UnitCell | d3fx-quadtree/src/main/java/ru/vzotov/d3fx/quadtree/QuadTree.java:108-113 | the first extent is a unit square containing the point |
| QuadTrees.Cover | d3fx-quadtree/src/main/java/ru/vzotov/d3fx/quadtree/QuadTree.java:97-157 | a NaN coordinate changes nothing; an empty extent becomes the unit cell; otherwise the new square contains the old one and the point, and equals it when the point was inside; an empty or leaf root is kept |
| QuadTrees.CoverKeepsTree | d3fx-quadtree/src/main/java/ru/vzotov/d3fx/quadtree/QuadTree.java:97-157 | `cover` keeps the tree well formed and keeps its elements |
| QuadTrees.TreeItemsInside | d3fx-quadtree/src/main/java/ru/vzotov/d3fx/quadtree/QuadTree.java:204-291 | every element of a well-formed tree is a valid point inside the tree's extent |
| QuadTrees.Split | d3fx-quadtree/src/main/java/ru/vzotov/d3fx/quadtree/QuadTree.java:268-290 | splitting a leaf for a distinct point yields an internal node with four slots |
| QuadTrees.SplitKeepsNode | d3fx-quadtree/src/main/java/ru/vzotov/d3fx/quadtree/QuadTree.java:268-290 | the split subtree is well placed and holds the old chain plus the new datum |
| QuadTrees.InsertNode | d3fx-quadtree/src/main/java/ru/vzotov/d3fx/quadtree/QuadTree.java:229-290 | inserting below a node keeps it well placed and adds exactly the new datum to its multiset of elements |
| QuadTrees.Prepend | d3fx-quadtree/src/main/java/ru/vzotov/d3fx/quadtree/QuadTree.java:254-266 | a coincident datum becomes the head of the leaf's chain, ahead of the old chain |
| QuadTrees.InsertBelow | d3fx-quadtree/src/main/java/ru/vzotov/d3fx/quadtree/QuadTree.java:230-252 | one descent step through an internal node keeps it well placed and adds exactly the new datum |
| QuadTrees.AddPoint | d3fx-quadtree/src/main/java/ru/vzotov/d3fx/quadtree/QuadTree.java:204-227 | a NaN coordinate changes nothing; an empty tree gets the new leaf as root; otherwise exactly the datum is added and the extent is kept |
| QuadTrees.Add | d3fx-quadtree/src/main/java/ru/vzotov/d3fx/quadtree/QuadTree.java:198-202 | a datum with valid coordinates is added once and covered by the extent; an invalid one changes nothing; the extent only grows |
| QuadTrees.Bounds | d3fx-quadtree/src/main/java/ru/vzotov/d3fx/quadtree/QuadTree.java:169-182 | the bounding rectangle contains every point, is not inverted, and each of its four sides is reached by some point, so it is exactly the min/max extent of the data |
| QuadTrees.AddEach | d3fx-quadtree/src/main/java/ru/vzotov/d3fx/quadtree/QuadTree.java:190-193 | adding covered data keeps the tree well formed and the extent, and adds exactly the multiset of the data |
| QuadTrees.AddAll | d3fx-quadtree/src/main/java/ru/vzotov/d3fx/quadtree/QuadTree.java:159-196 | adds exactly the multiset of the data; every point ends inside the extent; the extent only grows; no data changes nothing |
| QuadTrees.QuadTreeOf | d3fx-quadtree/src/main/java/ru/vzotov/d3fx/quadtree/QuadTree.java:16-23 | the factory's tree is well formed and holds exactly the given data; it is empty exactly when the data is |
| QuadVisits.VisitIsPreOrder | d3fx-quadtree/src/main/java/ru/vzotov/d3fx/quadtree/QuadTree.java:78-95 | the stack loop of `visit` makes the same callbacks as a recursive pre-order that skips the children of a node when the callback returns true |
| QuadVisits.VisitKeeps | d3fx-quadtree/src/main/java/ru/vzotov/d3fx/quadtree/QuadTree.java:78-95 | an invariant every callback preserves holds after the whole `visit` |
| QuadVisits.NoPruneVisitsAll | d3fx-quadtree/src/main/java/ru/vzotov/d3fx/quadtree/QuadTree.java:78-95 | a callback that never prunes sees every node, parents before children, children in slot order |
| QuadVisits.VisitAfterIsPostOrder | d3fx-quadtree/src/main/java/ru/vzotov/d3fx/quadtree/QuadTree.java:53-76 | `visitAfter` calls back in post-order: every node after its children, children in slot order |
| QuadVisits.AnnotateKeeps | d3fx-quadtree/src/main/java/ru/vzotov/d3fx/quadtree/QuadTree.java:53-76 | scratch values written by a `visitAfter` callback keep the shape, the elements and the placement of the tree |
| ForceBase.Jiggle | d3fx-force/src/main/java/ru/vzotov/d3fx/force/ForceAnimation.java:30-32 | a jiggle is non-zero and lies in [-5e-7, 5e-7) |
| ForceBase.JiggleZero | d3fx-force/src/main/java/ru/vzotov/d3fx/force/CollideForce.java:44-51 | a zero component is replaced by a jiggle, whose square is added to the squared length, using one draw; a non-zero one is kept and no draw is used |
| ForceBase.NotZero | d3fx-force/src/main/java/ru/vzotov/d3fx/force/Force.java:21-23 | the result is the fallback exactly when the value is zero (or already equal to it), and the value otherwise; a non-zero fallback never yields zero |
| ForceBase.Attach | d3fx-force/src/main/java/ru/vzotov/d3fx/force/Force.java:10-14 | a null node list is rejected with an illegal-argument error, and any other list is kept |
| CustomForces.EnsureCapacity | d3fx-force/src/main/java/ru/vzotov/d3fx/force/CustomizableForce.java:16-18 | a long enough array is returned as is; a shorter one is copied into exactly `capacity` cells, zero padded |
| CustomForces.InitRange | d3fx-force/src/main/java/ru/vzotov/d3fx/force/CustomizableForce.java:57-59 | exactly the cells in [from, to) are initialised from their nodes |
| CustomForces.Initialize | d3fx-force/src/main/java/ru/vzotov/d3fx/force/CustomizableForce.java:23-29 | every node's cell is initialised; cells beyond the list are kept; the length is the larger of the two |
| CustomForces.Steps | d3fx-force/src/main/java/ru/vzotov/d3fx/force/CustomizableForce.java:52-61 | the loop reports a removal exactly when some step removes; without one, exactly the added ranges are initialised |
| CustomForces.NodesChanged | d3fx-force/src/main/java/ru/vzotov/d3fx/force/CustomizableForce.java:47-66 | after any removal every node is re-initialised; otherwise exactly the reported ranges are, and the rest keep their (grown) cells |
| CustomForces.InitializeIdempotent | d3fx-force/src/main/java/ru/vzotov/d3fx/force/CustomizableForce.java:23-29 | a second `initialize` changes nothing |
| CustomForces.CoveredChangeIsInitialize | d3fx-force/src/main/java/ru/vzotov/d3fx/force/CustomizableForce.java:47-66 | a change that only adds, with its ranges covering the list, gives what a full `initialize` gives |
| LinkForces.CountDegrees | d3fx-force/src/main/java/ru/vzotov/d3fx/force/LinkForce.java:29-36 | each link gets its position as index, and `count[v]` is the number of link ends at node index `v` |
| LinkForces.EndpointDegree | d3fx-force/src/main/java/ru/vzotov/d3fx/force/LinkForce.java:31-36 | both ends of every link have degree at least one, so the bias and strength divisions are defined |
| LinkForces.DegreeSum | d3fx-force/src/main/java/ru/vzotov/d3fx/force/LinkForce.java:31-36 | the degrees add up to twice the number of links |
| LinkForces.NewLinkForce | d3fx-force/src/main/java/ru/vzotov/d3fx/force/LinkForce.java:21-50 | a null node list is rejected. Otherwise each bias is `cs/(cs+ct)` and lies strictly between 0 and 1; each default strength is one over the smaller degree; each distance comes from the indexed link |
| LinkForces.LinkStep | d3fx-force/src/main/java/ru/vzotov/d3fx/force/LinkForce.java:69-89 | one link changes only the velocities of its two ends, positions never, and uses at most two draws |
| LinkForces.LinkStepPlain | d3fx-force/src/main/java/ru/vzotov/d3fx/force/LinkForce.java:74-88 | with no zero component, the look-ahead vector is scaled by `(l - d)/l * alpha * strength` and split by the bias, with no draw |
| LinkForces.LinkAtRest | d3fx-force/src/main/java/ru/vzotov/d3fx/force/LinkForce.java:80-88 | a link whose look-ahead length equals its distance changes nothing |
| LinkForces.LinkSplitsVector | d3fx-force/src/main/java/ru/vzotov/d3fx/force/LinkForce.java:84-88 | the source's change minus the target's is the whole scaled vector, and the target takes the share `bias` |
| LinkForces.LinkPass | d3fx-force/src/main/java/ru/vzotov/d3fx/force/LinkForce.java:69-89 | the links in order leave positions alone, and leave untouched every node that is no link's end |
| LinkForces.LinkForceApply | d3fx-force/src/main/java/ru/vzotov/d3fx/force/LinkForce.java:67-90 | `force(alpha)` changes only velocities, and only those of linked nodes |
| LinkForces.LinkStepAsWritten | d3fx-force/src/main/java/ru/vzotov/d3fx/force/LinkForce.java:74-88 | the code's arithmetic fails (NaN) exactly when the look-ahead vector is zero |
| LinkForces.LinkStepAgrees | d3fx-force/src/main/java/ru/vzotov/d3fx/force/LinkForce.java:74-88 | where neither component is zero, the code's step and the model's agree and use no draw |
| LinkForces.CoincidentEnds | d3fx-force/src/main/java/ru/vzotov/d3fx/force/LinkForce.java:74-81 | two linked nodes with the same look-ahead point: the code's step yields NaN, while the model's jiggled step is defined for both nodes |
| ManyBodies.Strengths | d3fx-force/src/main/java/ru/vzotov/d3fx/force/ManyBodyForce.java:22-25 | the strength array holds `strength(node)` for every node, by position |
| ManyBodies.NewManyBodyAsWritten | d3fx-force/src/main/java/ru/vzotov/d3fx/force/ManyBodyForce.java:16-26 | the constructor as written stores the unsquared bounds in the squared fields |
| ManyBodies.NewManyBody | d3fx-force/src/main/java/ru/vzotov/d3fx/force/ManyBodyForce.java:16-26 | a null node list is rejected. Otherwise the strengths are taken by position and the bounds are squared, with infinity kept infinite |
| ManyBodies.KidsSum | d3fx-force/src/main/java/ru/vzotov/d3fx/force/ManyBodyForce.java:103-112 | the summed charge of the children never exceeds their summed absolute weight |
| ManyBodies.Accumulate | d3fx-force/src/main/java/ru/vzotov/d3fx/force/ManyBodyForce.java:95-129 | a non-zero charge always has a centroid; a leaf's centroid is its datum's position |
| ManyBodies.Summarize | d3fx-force/src/main/java/ru/vzotov/d3fx/force/ManyBodyForce.java:30-32 | `visitAfter(accumulate)` keeps the extent and whether there is a root |
| ManyBodies.ChargeIsTotal | d3fx-force/src/main/java/ru/vzotov/d3fx/force/ManyBodyForce.java:95-129 | the charge `accumulate` stores in a node is the total strength of all data below it, chains included |
| ManyBodies.TotalPermutation | d3fx-force/src/main/java/ru/vzotov/d3fx/force/ManyBodyForce.java:105-123 | the total strength does not depend on the order in which the data are met |
| ManyBodies.CentroidInside | d3fx-force/src/main/java/ru/vzotov/d3fx/force/ManyBodyForce.java:103-115 | the stored centroid of a node lies inside the node's bounds |
| ManyBodies.ChargedHasCentroid | d3fx-force/src/main/java/ru/vzotov/d3fx/force/ManyBodyForce.java:103-126 | a node with a non-zero stored charge has a centroid, so the 0/0 case never meets a non-zero charge |
| ManyBodies.RootChargeIsTotal | d3fx-force/src/main/java/ru/vzotov/d3fx/force/ManyBodyForce.java:28-32 | the root of the tree `force` builds carries the total strength of all nodes |
| ManyBodies.Clamp | d3fx-force/src/main/java/ru/vzotov/d3fx/force/ManyBodyForce.java:60-62 | the clamped squared distance stays positive and is unchanged at or above `distanceMin2` |
| ManyBodies.Guard | d3fx-force/src/main/java/ru/vzotov/d3fx/force/ManyBodyForce.java:52-62 | after the coincidence guard both components are non-zero and the squared length is positive; one draw is used per zero component |
| ManyBodies.Pull | d3fx-force/src/main/java/ru/vzotov/d3fx/force/ManyBodyForce.java:63-64 | a pull with positive alpha points with the offset for a positive charge and against it for a negative one; zero charge or alpha gives none |
| ManyBodies.ChainPull | d3fx-force/src/main/java/ru/vzotov/d3fx/force/ManyBodyForce.java:86-90 | the do-while over a chain uses no draw, and a chain holding only the node itself changes nothing |
| ManyBodies.Apply | d3fx-force/src/main/java/ru/vzotov/d3fx/force/ManyBodyForce.java:40-93 | a zero charge is skipped with its children pruned; a quadrant beyond `distanceMax2` exerts nothing; an internal node either prunes or changes nothing |
| ManyBodies.ChargeTree | d3fx-force/src/main/java/ru/vzotov/d3fx/force/ManyBodyForce.java:30-32 | the tree has a root exactly when there are nodes |
| ManyBodies.ApplyFrom | d3fx-force/src/main/java/ru/vzotov/d3fx/force/ManyBodyForce.java:33-37 | the node loop changes only velocities and does not revisit the nodes already done |
| ManyBodies.ManyBodyForce | d3fx-force/src/main/java/ru/vzotov/d3fx/force/ManyBodyForce.java:28-38 | `force(alpha)` changes only velocities |
| ManyBodies.AloneInLeaf | d3fx-force/src/main/java/ru/vzotov/d3fx/force/ManyBodyForce.java:72-90 | a node alone in its own leaf feels nothing from it and uses no draw |
| ManyBodies.ChainRepels | d3fx-force/src/main/java/ru/vzotov/d3fx/force/ManyBodyForce.java:86-90 | with non-positive strengths a chain pushes the node away along the offset |
| ManyBodies.Repels | d3fx-force/src/main/java/ru/vzotov/d3fx/force/ManyBodyForce.java:40-93 | with non-positive strengths and charge, the horizontal velocity moves away from the quadrant's centroid or stays put |
| ManyBodies.DistanceMaxSquared | d3fx-force/src/main/java/ru/vzotov/d3fx/force/ManyBodyForce.java:51 | with the bounds squared, a body interacts exactly when it is nearer than `distanceMax` |
| ManyBodies.UnsquaredDistanceMax | d3fx-force/src/main/java/ru/vzotov/d3fx/force/ManyBodyForce.java:19-20 | two nodes 50 apart with `distanceMax` 100: as written no force, with the bounds squared a repulsion |
| Collisions.NewCollide | d3fx-force/src/main/java/ru/vzotov/d3fx/force/CollideForce.java:85-89 | a null list is rejected. Otherwise strength is 1, iterations 1, and every node's radius is stored by position in an array of at least the default capacity |
| Collisions.SetRadius | d3fx-force/src/main/java/ru/vzotov/d3fx/force/CollideForce.java:132-134 | `setRadius` replaces the function and leaves the stored radii and the other parameters alone |
| Collisions.KidsMax | d3fx-force/src/main/java/ru/vzotov/d3fx/force/CollideForce.java:72-77 | the child loop yields a non-negative upper bound of the children's radii that is 0 or attained |
| Collisions.MaxRadius | d3fx-force/src/main/java/ru/vzotov/d3fx/force/CollideForce.java:67-79 | `prepare` stores in every node the largest radius of the leaf heads below it (or 0), and in a leaf its datum's radius |
| Collisions.RadiusTree | d3fx-force/src/main/java/ru/vzotov/d3fx/force/CollideForce.java:25-27 | the prepared tree of an iteration has an extent whenever it has a root |
| Collisions.Share | d3fx-force/src/main/java/ru/vzotov/d3fx/force/CollideForce.java:53 | the share `rj^2/(ri^2+rj^2)` lies in [0, 1]; the smaller disk takes the larger share, and equal disks share equally |
| Collisions.Direction | d3fx-force/src/main/java/ru/vzotov/d3fx/force/CollideForce.java:44-52 | after the guard both components are non-zero, the length is positive, and one draw is used per zero component |
| Collisions.Overlap | d3fx-force/src/main/java/ru/vzotov/d3fx/force/CollideForce.java:52 | with positive strength the push factor is positive exactly when the disks overlap |
| Collisions.Separate | d3fx-force/src/main/java/ru/vzotov/d3fx/force/CollideForce.java:53-56 | only the pair's velocities change, and their changes weighted by squared radii cancel |
| Collisions.SeparateApart | d3fx-force/src/main/java/ru/vzotov/d3fx/force/CollideForce.java:43-57 | overlapping disks move apart: the node along the offset and the other against it |
| Collisions.Apply | d3fx-force/src/main/java/ru/vzotov/d3fx/force/CollideForce.java:34-62 | a leaf never prunes, and one whose datum's index is not above the node's changes nothing; an internal node changes nothing and is pruned exactly when its bounds miss the node's reach |
| Collisions.PruneSound | d3fx-force/src/main/java/ru/vzotov/d3fx/force/CollideForce.java:61 | a pruned subtree holds no leaf head that overlaps the node |
| Collisions.EachNode | d3fx-force/src/main/java/ru/vzotov/d3fx/force/CollideForce.java:28-63 | the node loop changes only velocities |
| Collisions.Iterate | d3fx-force/src/main/java/ru/vzotov/d3fx/force/CollideForce.java:24-64 | the iterations change only velocities, and zero iterations change nothing |
| Collisions.CollideForce | d3fx-force/src/main/java/ru/vzotov/d3fx/force/CollideForce.java:20-65 | `force(alpha)` changes only velocities; a non-positive iteration count changes nothing |
| PositionForces.NewAxisForce | d3fx-force/src/main/java/ru/vzotov/d3fx/force/XForce.java:23-46 | a null list is rejected. Otherwise every node's target is stored with strength 0 for a NaN target and `strength(node)` otherwise |
| PositionForces.NewDefaultAxisForce | d3fx-force/src/main/java/ru/vzotov/d3fx/force/XForce.java:23-25 | the two-argument constructor stores every node's target, with strength 0.1 where there is a target and 0 where it is NaN |
| PositionForces.AxisPull | d3fx-force/src/main/java/ru/vzotov/d3fx/force/XForce.java:15-21 | only the velocity along the force's axis changes, by `(target - position) * strength * alpha` |
| PositionForces.AxisPullTowardsTarget | d3fx-force/src/main/java/ru/vzotov/d3fx/force/XForce.java:15-21 | a node at its target, or without one, keeps its velocity; otherwise the change points towards the target |
| PositionForces.AxisDeltaAsWritten | d3fx-force/src/main/java/ru/vzotov/d3fx/force/XForce.java:19 | the code's change is NaN exactly when the target is NaN |
| PositionForces.AxisDeltaAgrees | d3fx-force/src/main/java/ru/vzotov/d3fx/force/XForce.java:19 | where the code's change is a number it is the model's |
| PositionForces.AxisNaNTarget | d3fx-force/src/main/java/ru/vzotov/d3fx/force/XForce.java:44-46 | a NaN target gets strength 0, yet the code's change is NaN; the model's is 0 |
| PositionForces.NewRadialForce | d3fx-force/src/main/java/ru/vzotov/d3fx/force/RadialForce.java:35-46 | a null list is rejected. Otherwise the centre is stored, and every node's radius with the default strength 0.1, or 0 for a NaN radius |
| PositionForces.SetRadius | d3fx-force/src/main/java/ru/vzotov/d3fx/force/RadialForce.java:67-70 | the new radius function re-initialises every node's cell; the centre and strength function stay |
| PositionForces.SetStrength | d3fx-force/src/main/java/ru/vzotov/d3fx/force/RadialForce.java:76-79 | the new strength function re-initialises every node's cell; the centre and radius function stay |
| PositionForces.SetCentre | d3fx-force/src/main/java/ru/vzotov/d3fx/force/RadialForce.java:85-95 | `setX`/`setY` move the centre and keep the cells |
| PositionForces.Offset | d3fx-force/src/main/java/ru/vzotov/d3fx/force/RadialForce.java:22-23 | both offset components are non-zero after `notZero` |
| PositionForces.Distance | d3fx-force/src/main/java/ru/vzotov/d3fx/force/RadialForce.java:24 | the distance from the centre is positive |
| PositionForces.RadialNode | d3fx-force/src/main/java/ru/vzotov/d3fx/force/RadialForce.java:21-27 | one node keeps its position, index and pins |
| PositionForces.RadialPull | d3fx-force/src/main/java/ru/vzotov/d3fx/force/RadialForce.java:18-29 | `force(alpha)` changes only velocities, each node by its own cell |
| PositionForces.RadialPullTowardsRing | d3fx-force/src/main/java/ru/vzotov/d3fx/force/RadialForce.java:25-27 | the factor is 0 on the ring or without one; with positive strength and alpha, a node inside its ring is pushed out and one outside pulled in |
| PositionForces.RadialOnRingStill | d3fx-force/src/main/java/ru/vzotov/d3fx/force/RadialForce.java:18-29 | a node exactly on its ring is left as it was |
| PositionForces.RadialDeltaAsWritten | d3fx-force/src/main/java/ru/vzotov/d3fx/force/RadialForce.java:25-27 | the code's change is NaN exactly when the radius is NaN |
| PositionForces.RadialDeltaAgrees | d3fx-force/src/main/java/ru/vzotov/d3fx/force/RadialForce.java:58-61 | where the code's change is a number it is the model's; a NaN radius gives the model's factor 0 |
| PositionForces.Translate | d3fx-force/src/main/java/ru/vzotov/d3fx/force/CenterForce.java:31-36 | every node moves by the same offset and nothing else changes |
| PositionForces.Center | d3fx-force/src/main/java/ru/vzotov/d3fx/force/CenterForce.java:18-37 | centring keeps indices and pins; an empty list is left alone |
| PositionForces.CenterHitsCentre | d3fx-force/src/main/java/ru/vzotov/d3fx/force/CenterForce.java:18-37 | afterwards the centroid of a non-empty list is the centre |
| PositionForces.CenterIsTranslation | d3fx-force/src/main/java/ru/vzotov/d3fx/force/CenterForce.java:31-36 | centring is one translation: differences between nodes, velocities, pins and indices are kept |
| PositionForces.CenterFixesCentred | d3fx-force/src/main/java/ru/vzotov/d3fx/force/CenterForce.java:18-37 | a list already centred does not move, and centring twice is centring once |
| Simulations.InitializeNode | d3fx-force/src/main/java/ru/vzotov/d3fx/force/ForceAnimation.java:82-94 | the node gets index `i` and keeps its pins. Its velocity is kept when both components are numbers and zeroed otherwise |
| Simulations.InitializePlaces | d3fx-force/src/main/java/ru/vzotov/d3fx/force/ForceAnimation.java:84-90 | a node with both coordinates (or pins) keeps them, snapped to its pins; one lacking either lands on spiral point `i` |
| Simulations.InitializeIdempotent | d3fx-force/src/main/java/ru/vzotov/d3fx/force/ForceAnimation.java:82-94 | for a placed node, initialising twice is initialising once |
| Simulations.SpiralOverridesPin | d3fx-force/src/main/java/ru/vzotov/d3fx/force/ForceAnimation.java:84-90 | a node pinned in `x` but lacking `y` is placed wholly on the spiral, off its pin, and only a second initialisation snaps it to the pin |
| Simulations.SpiralOnCircle | d3fx-force/src/main/java/ru/vzotov/d3fx/force/ForceAnimation.java:87-89 | with exact library functions, spiral point `i` lies at squared distance `100 (0.5 + i)` from the origin |
| Simulations.SpiralDistinct | d3fx-force/src/main/java/ru/vzotov/d3fx/force/ForceAnimation.java:87-89 | spiral points of different indices differ |
| Simulations.InitRange | d3fx-force/src/main/java/ru/vzotov/d3fx/force/ForceAnimation.java:68-71 | exactly the nodes in [from, to) are initialised at their positions |
| Simulations.ListenAsWritten | d3fx-force/src/main/java/ru/vzotov/d3fx/force/ForceAnimation.java:65-74 | the listener as written initialises the added nodes and leaves every other node as it was |
| Simulations.Listen | d3fx-force/src/main/java/ru/vzotov/d3fx/force/ForceAnimation.java:65-74 | the corrected listener makes every index its position, initialises added nodes and changes nothing else |
| Simulations.ListenAgreesOnAppend | d3fx-force/src/main/java/ru/vzotov/d3fx/force/ForceAnimation.java:65-74 | when the old nodes already carry their positions, the corrected and the written listener agree |
| Simulations.StaleIndexAfterRemoval | d3fx-force/src/main/java/ru/vzotov/d3fx/force/ForceAnimation.java:65-74 | after removing the first of three nodes, the written listener leaves index 1 at position 0 and the corrected one gives 0 |
| Simulations.ApplyForce | d3fx-force/src/main/java/ru/vzotov/d3fx/force/ForceAnimation.java:120-122 | a force keeps the list's shape (length, indices, pins), and every force but centring keeps positions |
| Simulations.ApplyForces | d3fx-force/src/main/java/ru/vzotov/d3fx/force/ForceAnimation.java:120-122 | the forces in order keep the list's shape; no forces change nothing |
| Simulations.Integrate | d3fx-force/src/main/java/ru/vzotov/d3fx/force/ForceAnimation.java:124-129 | velocities decay by 0.6. A pinned coordinate becomes its pin; a free one advances by the decayed velocity |
| Simulations.NewSimulation | d3fx-force/src/main/java/ru/vzotov/d3fx/force/ForceAnimation.java:77-80 | every node is initialised at its position; alpha starts at 0.99 with target 0 and no forces |
| Simulations.AddForce | d3fx-force/src/main/java/ru/vzotov/d3fx/force/ForceAnimation.java:100-103 | the force joins the end of the list and nothing else changes |
| Simulations.Relist | d3fx-force/src/main/java/ru/vzotov/d3fx/force/CustomizableForce.java:47-66 | a force's own listener: ManyBody, link and centre forces keep their state (the empty `Force.nodesChanged`); collide, axis and radial forces renew their cells by position as `nodesChanged` does, change nothing else, and then cover every node of a position-indexed list |
| Simulations.Update | d3fx-force/src/main/java/ru/vzotov/d3fx/force/ForceAnimation.java:65-74 | after a list change the nodes go through the corrected listener `Listen`: every index is its position, untouched nodes keep everything else, added ones keep their pins. Then every force runs its own listener (`Relist`) on the new list, and alpha is kept. The simulation stays runnable whenever its ManyBody and link forces still fit the new list |
| Simulations.Cool | d3fx-force/src/main/java/ru/vzotov/d3fx/force/ForceAnimation.java:118 | the gap to the target shrinks by the factor `1 - decay` |
| Simulations.Step | d3fx-force/src/main/java/ru/vzotov/d3fx/force/ForceAnimation.java:117-130 | one iteration cools alpha once, keeps forces, target and shape, and leaves every pinned coordinate on its pin |
| Simulations.Tick | d3fx-force/src/main/java/ru/vzotov/d3fx/force/ForceAnimation.java:116-131 | `tick(n)` cools alpha `n` times and keeps the shape; a non-positive count changes nothing |
| Simulations.Interpolate | d3fx-force/src/main/java/ru/vzotov/d3fx/force/ForceAnimation.java:134-139 | one tick, and the animation keeps running exactly when alpha is still at least 0.001 |
| Simulations.CooledClosedForm | d3fx-force/src/main/java/ru/vzotov/d3fx/force/ForceAnimation.java:116-131 | after `n` ticks the gap to the target is the initial gap times `(1 - decay)^n` |
| Simulations.CoolBetween | d3fx-force/src/main/java/ru/vzotov/d3fx/force/ForceAnimation.java:118 | alpha never overshoots its target, and with decay below 1 never reaches a target it did not start at |
| Simulations.KeepsRunning | d3fx-force/src/main/java/ru/vzotov/d3fx/force/ForceAnimation.java:134-139 | alpha and target both at least 0.001 keep alpha at least 0.001 forever |
| Simulations.CoolsDown | d3fx-force/src/main/java/ru/vzotov/d3fx/force/ForceAnimation.java:17-18 | from 0.99 with target 0, once `(1 - decay)^n` is 0.001 the `n` ticks leave alpha at `0.99 * 0.001`, below the 0.001 that stops the animation |
| Simulations.PinsHold | d3fx-force/src/main/java/ru/vzotov/d3fx/force/ForceAnimation.java:127-128 | after at least one tick every pinned coordinate equals its pin |
| Simulations.RestIsStable | d3fx-force/src/main/java/ru/vzotov/d3fx/force/ForceAnimation.java:124-129 | without forces, nodes at rest on their pins stay exactly where they are |
| Hierarchies.EachBefore | d3fx-hierarchy/src/main/java/ru/vzotov/d3fx/hierarchy/AbstractNode.java:192-206 | the stack loop of `eachBefore` calls back in pre-order |
| Hierarchies.EachBeforeOrder | d3fx-hierarchy/src/main/java/ru/vzotov/d3fx/hierarchy/AbstractNode.java:187-206 | `eachBefore` visits every node once, each after its ancestors, earlier siblings' subtrees first |
| Hierarchies.EachAfter | d3fx-hierarchy/src/main/java/ru/vzotov/d3fx/hierarchy/AbstractNode.java:167-185 | the two loops of `eachAfter` call back in post-order |
| Hierarchies.EachAfterOrder | d3fx-hierarchy/src/main/java/ru/vzotov/d3fx/hierarchy/AbstractNode.java:162-185 | `eachAfter` visits every node once, each after its descendants, earlier siblings' subtrees first |
| Hierarchies.EachLoopLevel | d3fx-hierarchy/src/main/java/ru/vzotov/d3fx/hierarchy/AbstractNode.java:145-157 | one round of `each` visits one level left to right and collects the next level |
| Hierarchies.EachOrder | d3fx-hierarchy/src/main/java/ru/vzotov/d3fx/hierarchy/AbstractNode.java:133-160 | `each` visits every node once, from the root, shallower nodes first, one level left to right |
| HierarchyOps.Rollup | d3fx-hierarchy/src/main/java/ru/vzotov/d3fx/hierarchy/AbstractNode.java:216-227 | the post-order pass gives the node a value and keeps data, depth, height and the children's shape |
| HierarchyOps.RollupKid | d3fx-hierarchy/src/main/java/ru/vzotov/d3fx/hierarchy/AbstractNode.java:216-227 | child k of the rolled-up node is the rolled-up child k, so the pass reaches every child |
| HierarchyOps.RollupAt | d3fx-hierarchy/src/main/java/ru/vzotov/d3fx/hierarchy/AbstractNode.java:216-227 | at every address of the tree, the rolled-up tree holds the roll-up of the subtree found there |
| HierarchyOps.CountIsLeafCount | d3fx-hierarchy/src/main/java/ru/vzotov/d3fx/hierarchy/AbstractNode.java:108-131 | `count` gives the root the number of nodes without children below it |
| HierarchyOps.CountAt | d3fx-hierarchy/src/main/java/ru/vzotov/d3fx/hierarchy/AbstractNode.java:108-131 | `count` gives every node, the root and each descendant, the number of nodes without children in its own subtree |
| HierarchyOps.SumIsTotal | d3fx-hierarchy/src/main/java/ru/vzotov/d3fx/hierarchy/AbstractNode.java:208-227 | `sum` gives the root the accessor's values over the whole tree, a null value counting as 0 |
| HierarchyOps.SumAt | d3fx-hierarchy/src/main/java/ru/vzotov/d3fx/hierarchy/AbstractNode.java:208-227 | `sum` gives every node the accessor's values over its own subtree, a null value counting as 0 |
| HierarchyOps.InsertionSort | d3fx-hierarchy/src/main/java/ru/vzotov/d3fx/hierarchy/AbstractNode.java:244 | the sorted list is a permutation of the original |
| HierarchyOps.InsertionSortOrders | d3fx-hierarchy/src/main/java/ru/vzotov/d3fx/hierarchy/AbstractNode.java:244 | for an antisymmetric comparator the sorted list is ordered |
| HierarchyOps.Sort | d3fx-hierarchy/src/main/java/ru/vzotov/d3fx/hierarchy/AbstractNode.java:241-247 | `sort` keeps every node's own fields and number of children; each child is the sorted subtree of the sorted list |
| HierarchyOps.SortOrdersChildren | d3fx-hierarchy/src/main/java/ru/vzotov/d3fx/hierarchy/AbstractNode.java:229-247 | every children list becomes an ordered permutation of the original |
| HierarchyOps.Ancestors | d3fx-hierarchy/src/main/java/ru/vzotov/d3fx/hierarchy/AbstractNode.java:288-295 | `ancestors` as written lists the root first and the node itself last |
| HierarchyOps.AncestorsUpward | d3fx-hierarchy/src/main/java/ru/vzotov/d3fx/hierarchy/AbstractNode.java:285-287 | the documented `ancestors` lists the node first, then each parent up to the root |
| HierarchyOps.AncestorsOrders | d3fx-hierarchy/src/main/java/ru/vzotov/d3fx/hierarchy/AbstractNode.java:285-295 | the two lists hold the same nodes in opposite orders |
| HierarchyOps.AncestorsStartAtRoot | d3fx-hierarchy/src/main/java/ru/vzotov/d3fx/hierarchy/AbstractNode.java:285-295 | for a child of the root, the written list starts at the root, not at the node |
| HierarchyOps.LeastCommonAncestor | d3fx-hierarchy/src/main/java/ru/vzotov/d3fx/hierarchy/AbstractNode.java:249-262 | the result is a common ancestor of both nodes (a node counts as its own) with no deeper common one |
| HierarchyOps.PathIsShortestWalk | d3fx-hierarchy/src/main/java/ru/vzotov/d3fx/hierarchy/AbstractNode.java:264-283 | the corrected `path` is a walk from the start to the target, one edge per step, through the least common ancestor, of the shortest length |
| HierarchyOps.PathAsWrittenShape | d3fx-hierarchy/src/main/java/ru/vzotov/d3fx/hierarchy/AbstractNode.java:269-283 | for every pair of nodes the written path is the ascent reversed (common ancestor first), then the start node, then the descent; it begins at the ancestor whenever the start is not the ancestor, and ends at the start node instead of the target when the target is a proper ancestor of the start |
| HierarchyOps.PathAsWrittenToAncestor | d3fx-hierarchy/src/main/java/ru/vzotov/d3fx/hierarchy/AbstractNode.java:269-283 | from a child to its parent the written path is parent, child, which is not a walk to the target; the corrected one is child, parent |
| HierarchyOps.PathAsWrittenSkips | d3fx-hierarchy/src/main/java/ru/vzotov/d3fx/hierarchy/AbstractNode.java:269-283 | between two siblings the written path starts at the parent and is not a walk; the corrected one is child, parent, child |
| HierarchyOps.Descendants | d3fx-hierarchy/src/main/java/ru/vzotov/d3fx/hierarchy/AbstractNode.java:300-304 | `descendants` as written ends with the root |
| HierarchyOps.DescendantsInOrder | d3fx-hierarchy/src/main/java/ru/vzotov/d3fx/hierarchy/AbstractNode.java:297-299 | the documented `descendants` starts with the root and lists every node in level order |
| HierarchyOps.DescendantsReversed | d3fx-hierarchy/src/main/java/ru/vzotov/d3fx/hierarchy/AbstractNode.java:297-304 | the written list is exactly the documented one reversed |
| HierarchyOps.LeavesInOrder | d3fx-hierarchy/src/main/java/ru/vzotov/d3fx/hierarchy/AbstractNode.java:306-317 | the documented `leaves` are nodes of the tree without a children list, in traversal order |
| HierarchyOps.LeavesComplete | d3fx-hierarchy/src/main/java/ru/vzotov/d3fx/hierarchy/AbstractNode.java:306-317 | every node without a children list is among the leaves |
| HierarchyOps.LeavesReversed | d3fx-hierarchy/src/main/java/ru/vzotov/d3fx/hierarchy/AbstractNode.java:309-317 | two leaves under one root come out of the written `leaves` in reverse traversal order |
| HierarchyOps.CountIsNumberOfLeaves | d3fx-hierarchy/src/main/java/ru/vzotov/d3fx/hierarchy/AbstractNode.java:108-131 | when no children list is empty, `count` at the root equals the number of leaves |
| HierarchyOps.Links | d3fx-hierarchy/src/main/java/ru/vzotov/d3fx/hierarchy/AbstractNode.java:324-333 | every link goes from a node's parent to the node, both nodes of the tree, never into the root; LinksComplete and LinksOnce make it exactly one link into each other node |
| HierarchyOps.LinksComplete | d3fx-hierarchy/src/main/java/ru/vzotov/d3fx/hierarchy/AbstractNode.java:319-333 | every node but the root is the target of some link |
| HierarchyOps.LinksOnce | d3fx-hierarchy/src/main/java/ru/vzotov/d3fx/hierarchy/AbstractNode.java:319-333 | no two links share a target, so with LinksComplete every node but the root is the target of exactly one link |
| HierarchyOps.LinksIntoOnce | d3fx-hierarchy/src/main/java/ru/vzotov/d3fx/hierarchy/AbstractNode.java:324-333 | the link loop over a list with no node twice yields links with pairwise distinct targets |
| HierarchyBuilders.GrowAll | d3fx-hierarchy/src/main/java/ru/vzotov/d3fx/hierarchy/HierarchyBuilder.java:35-43 | one grown child per listed datum, in list order |
| HierarchyBuilders.GrowShape | d3fx-hierarchy/src/main/java/ru/vzotov/d3fx/hierarchy/HierarchyBuilder.java:22-45 | the grown tree has a node exactly at each datum's address. Each holds its datum, depth, value (when valued) and child count, and has a children list exactly when the datum lists children |
| HierarchyBuilders.Raise | d3fx-hierarchy/src/main/java/ru/vzotov/d3fx/hierarchy/HierarchyBuilder.java:54-58 | one `computeHeight` call only writes heights of known nodes |
| HierarchyBuilders.RaiseCorrect | d3fx-hierarchy/src/main/java/ru/vzotov/d3fx/hierarchy/HierarchyBuilder.java:54-58 | the upward walk updates exactly the ancestors whose height grows |
| HierarchyBuilders.Pass | d3fx-hierarchy/src/main/java/ru/vzotov/d3fx/hierarchy/HierarchyBuilder.java:47 | the pass over the nodes writes heights of known nodes only |
| HierarchyBuilders.Heights | d3fx-hierarchy/src/main/java/ru/vzotov/d3fx/hierarchy/HierarchyBuilder.java:47-58 | the height pass gives every node a height |
| HierarchyBuilders.HeightsAreTallest | d3fx-hierarchy/src/main/java/ru/vzotov/d3fx/hierarchy/HierarchyBuilder.java:47-58 | after the pass every node's height is the length of the longest path from it down to a leaf |
| HierarchyBuilders.HierarchyShape | d3fx-hierarchy/src/main/java/ru/vzotov/d3fx/hierarchy/HierarchyBuilder.java:22-47 | the built tree has a node exactly at each datum's address. Each holds its datum and depth, and its value when the root datum has one; no children list is empty |
| HierarchyBuilders.HierarchyHeights | d3fx-hierarchy/src/main/java/ru/vzotov/d3fx/hierarchy/HierarchyBuilder.java:47-58 | every node's height in the built tree is its longest path down |
| Sankeys.ById | d3fx-sankey/src/main/java/ru/vzotov/d3fx/sankey/Sankey.java:268 | the id map is built exactly when the ids are distinct, and then maps each id to its node |
| Sankeys.Select | d3fx-sankey/src/main/java/ru/vzotov/d3fx/sankey/Sankey.java:270-281 | a node's list holds exactly the links with that end at it, once each, in link order |
| Sankeys.Gather | d3fx-sankey/src/main/java/ru/vzotov/d3fx/sankey/Sankey.java:270-281 | the appends of the link loop give every node its selected list |
| Sankeys.ResolveMeaning | d3fx-sankey/src/main/java/ru/vzotov/d3fx/sankey/Sankey.java:273-278 | looking an end up through the id map finds a node exactly when the end resolves, and then the node its key names |
| Sankeys.WiredDistinct | d3fx-sankey/src/main/java/ru/vzotov/d3fx/sankey/Sankey.java:279-280 | a wired list holds no link twice |
| Sankeys.SortList | d3fx-sankey/src/main/java/ru/vzotov/d3fx/sankey/Sankey.java:286-287 | sorting a link list permutes it |
| Sankeys.SortListOrders | d3fx-sankey/src/main/java/ru/vzotov/d3fx/sankey/Sankey.java:286-287 | for a comparator that obeys the sign rule on the graph's links, the sorted list has no link comparing above its successor |
| Sankeys.SortLinks | d3fx-sankey/src/main/java/ru/vzotov/d3fx/sankey/Sankey.java:283-289 | sorting keeps the links, the node count and every node's other fields, and permutes both lists of every node |
| Sankeys.SortLinksOrders | d3fx-sankey/src/main/java/ru/vzotov/d3fx/sankey/Sankey.java:283-289 | for a comparator that obeys the sign rule, both lists of every node come out ordered by it |
| Sankeys.ComputeNodeLinks | d3fx-sankey/src/main/java/ru/vzotov/d3fx/sankey/Sankey.java:257-290 | wiring succeeds exactly when node ids are distinct and every link end resolves. Then every node lists exactly its links at each end, in link order when there is no comparator, and ordered by the comparator when it obeys the sign rule |
| Sankeys.Plus | d3fx-sankey/src/main/java/ru/vzotov/d3fx/sankey/Sankey.java:627-629 | null is the identity: the sum is null only for two nulls and otherwise adds the present values |
| Sankeys.ReduceIsGivenSum | d3fx-sankey/src/main/java/ru/vzotov/d3fx/sankey/Sankey.java:297-298 | reducing with `sum` gives the total of the present values, or null when none is present |
| Sankeys.ReduceAsWrittenThrows | d3fx-sankey/src/main/java/ru/vzotov/d3fx/sankey/Sankey.java:297-298 | the stream reduction throws exactly on a non-empty list of nulls, and otherwise agrees with `ReduceIsGivenSum` |
| Sankeys.NullLinkValueThrows | d3fx-sankey/src/main/java/ru/vzotov/d3fx/sankey/Sankey.java:297 | one link with a null value makes the written reduction throw, while the intended result is null |
| Sankeys.Larger | d3fx-sankey/src/main/java/ru/vzotov/d3fx/sankey/Sankey.java:296-301 | the larger of two nullable values is null only when both are, and is one of them and at least each present one |
| Sankeys.ComputeNodeValues | d3fx-sankey/src/main/java/ru/vzotov/d3fx/sankey/Sankey.java:292-304 | a node with a fixed value takes it; any other node takes the larger of the sums of the non-null values of its outgoing and of its incoming links, null when neither has one; nothing but values changes |
| Sankeys.GivenPermutes | d3fx-sankey/src/main/java/ru/vzotov/d3fx/sankey/Sankey.java:297-298 | a node's combined link value does not depend on the order of its list, so sorting the lists does not change values |
| Sankeys.ValueIsLargerFlow | d3fx-sankey/src/main/java/ru/vzotov/d3fx/sankey/Sankey.java:294-302 | a node's value is its fixed value when set. Otherwise it is the larger of its outgoing and incoming link totals, null when neither side has a value |
| Layering.LayersAreLongestWalks | d3fx-sankey/src/main/java/ru/vzotov/d3fx/sankey/Sankey.java:309-324 | the rounds fail exactly when some walk is as long as the node count; otherwise each node's stamp is the longest walk ending at it |
| Layering.ReachLimitIsCycle | d3fx-sankey/src/main/java/ru/vzotov/d3fx/sankey/Sankey.java:320 | the rounds run dry within the node count exactly when the links have no cycle |
| Layering.LayersFailOnCycles | d3fx-sankey/src/main/java/ru/vzotov/d3fx/sankey/Sankey.java:315-322 | the loop reports a circular link exactly when there is a cycle |
| Layering.ConverseLayers | d3fx-sankey/src/main/java/ru/vzotov/d3fx/sankey/Sankey.java:326-341 | rounds over the reversed links stamp each node with the longest walk starting at it, and fail on the same cycles |
| SankeyLayout.FarEnds | d3fx-sankey/src/main/java/ru/vzotov/d3fx/sankey/Sankey.java:318 | the far end of each listed link, in list order, is a node of the graph |
| SankeyLayout.Adjacent | d3fx-sankey/src/main/java/ru/vzotov/d3fx/sankey/Sankey.java:316-318 | the adjacency read off the lists has one entry per node and stays inside the node list |
| SankeyLayout.AdjacentArcs | d3fx-sankey/src/main/java/ru/vzotov/d3fx/sankey/Sankey.java:316-335 | `v` follows `u` in the outgoing adjacency, and `u` precedes `v` in the incoming one, exactly when some link goes from `u` to `v` |
| SankeyLayout.OutsInsConverse | d3fx-sankey/src/main/java/ru/vzotov/d3fx/sankey/Sankey.java:318-335 | the incoming adjacency is the converse of the outgoing one |
| SankeyLayout.ComputeNodeDepths | d3fx-sankey/src/main/java/ru/vzotov/d3fx/sankey/Sankey.java:309-324 | the depth loop fails exactly on a cycle. Otherwise only depths change, and each is the longest chain of links into the node |
| SankeyLayout.ComputeNodeHeights | d3fx-sankey/src/main/java/ru/vzotov/d3fx/sankey/Sankey.java:326-341 | the height loop fails exactly on a cycle. Otherwise only heights change, and each is the longest chain of links out of the node |
| SankeyLayout.DepthsThenHeights | d3fx-sankey/src/main/java/ru/vzotov/d3fx/sankey/Sankey.java:309-341 | after successful depths, heights succeed too and the graph is layered |
| SankeyLayout.MaxDepth | d3fx-sankey/src/main/java/ru/vzotov/d3fx/sankey/Sankey.java:345 | the maximum bounds every depth and is attained; it is 0 for no nodes |
| SankeyLayout.NearestTarget | d3fx-sankey/src/main/java/ru/vzotov/d3fx/sankey/Align.java:19 | the smallest target depth bounds every target's depth from below and is attained |
| SankeyLayout.Clamp | d3fx-sankey/src/main/java/ru/vzotov/d3fx/sankey/Sankey.java:350 | the column is in [0, n-1]; a value inside is kept, one below becomes 0, one above becomes n-1 |
| SankeyLayout.ComputeNodeLayers | d3fx-sankey/src/main/java/ru/vzotov/d3fx/sankey/Sankey.java:343-351 | the layer count is the largest depth plus one. Each node's layer is its clamped alignment, inside the count; nothing but layers changes |
| SankeyLayout.HeightBelowMaxDepth | d3fx-sankey/src/main/java/ru/vzotov/d3fx/sankey/Sankey.java:326-345 | no node's height exceeds the largest depth |
| SankeyLayout.EntryDepth | d3fx-sankey/src/main/java/ru/vzotov/d3fx/sankey/Sankey.java:309-324 | a node with an incoming link has depth at least one |
| SankeyLayout.LeftLayer | d3fx-sankey/src/main/java/ru/vzotov/d3fx/sankey/Align.java:5-7 | under `left` every node's layer is its depth, never clamped |
| SankeyLayout.RightLayer | d3fx-sankey/src/main/java/ru/vzotov/d3fx/sankey/Align.java:9-11 | under `right` every node's layer is `layers - 1 - height`, never clamped |
| SankeyLayout.JustifyLayer | d3fx-sankey/src/main/java/ru/vzotov/d3fx/sankey/Align.java:13-15 | under `justify` a node with outgoing links stays at its depth and every sink goes to the last column |
| SankeyLayout.CenterLayer | d3fx-sankey/src/main/java/ru/vzotov/d3fx/sankey/Align.java:17-21 | under `center` a node with incoming links stays at its depth; one with only outgoing links goes one column before its nearest target; an isolated node goes to column 0 |
| SankeyLayout.NearestTargetInRange | d3fx-sankey/src/main/java/ru/vzotov/d3fx/sankey/Align.java:19 | on a layered graph the nearest target's depth is at least 1, so the column before it exists |
| SankeyBreadths.Stack | d3fx-sankey/src/main/java/ru/vzotov/d3fx/sankey/Sankey.java:572-579 | each listed link gets at its end the middle of its band, which starts after the widths of the earlier links; unlisted links are untouched; only that end moves |
| SankeyBreadths.StackNode | d3fx-sankey/src/main/java/ru/vzotov/d3fx/sankey/Sankey.java:569-580 | one node stacks its outgoing then its incoming links, keeping the bands already laid |
| SankeyBreadths.ComputeLinkBreadths | d3fx-sankey/src/main/java/ru/vzotov/d3fx/sankey/Sankey.java:567-581 | every link gets its band on both of its nodes, and nothing but the two band coordinates changes |
| SankeyBreadths.BandsAbut | d3fx-sankey/src/main/java/ru/vzotov/d3fx/sankey/Sankey.java:567-581 | a node's bands lie edge to edge from its top: the first starts at `y0`, each next starts where the one before ends, and the last ends after the total width |

## Left out

- Rendering, JavaFX properties, listeners on properties and animation timing are not modelled. `setRate`, `setCycleCount`, the cycle duration and `stop()` become the boolean that `Simulations.Interpolate` returns.
- Floating point is not modelled: doubles are reals. NaN is modelled only where the code tests for it. Signed zero (`Double.compare(-0.0, 0.0)`) is not modelled, and neither is rounding, so the exactness of the doubling extents is taken for granted.
- Library maths and randomness (`Math.sqrt`, `cos`, `sin`, `pow`, `Math.random`) are parameters. Their facts are stated only where needed (sqrt positive on positive arguments, the `Exact` predicate for the spiral lemmas). `Simulations.CoolsDown` takes `(1 - decay)^n == 0.001` as a hypothesis instead of evaluating `Math.pow`.
- QuadTrees.AddAll: requires every datum to have both coordinates. As written, `addAll` skips a NaN point when computing the bounds. It still calls `add` with the zeros of its unfilled array slots, so the datum is inserted at (0, 0), possibly outside the extent. The model does not represent a point outside the extent.
- Quadtree `remove`, `find`, `copy`, the size/data accessors and the `Quad` record are not modelled; only `cover`, `add`, `addAll`, `quadTree`, `visit` and `visitAfter` are.
- The custom children accessor of `HierarchyBuilder.hierarchy(data, children)` is not modelled; the model uses the datum's own list (the one-argument overload). `AbstractNode.copy` and `TreeBuilder` are not modelled.
- HierarchyOps.InsertionSort: `List.sort` is modelled by a stable insertion sort. Both give the same list only for a comparator that obeys its contract, so the model says nothing about inconsistent comparators.
- Collisions.Apply: only the head datum of a leaf is examined, as in the code. The chained data of coincident points are never pushed, and the model states nothing about them.
- CustomForces.NodesChanged: a change report is modelled as a sequence of (from, to, removed) steps. The permutation and update kinds of `ListChangeListener.Change` are not modelled.
- Sankey: the vertical layout is not modelled. That covers `computeNodeBreadths`, the relaxation and collision passes, the `iterations` loop, node padding and scaling, horizontal positions (which divide by `layers - 1`), the column lists and column sorting of `computeNodeLayers`, and the setters. The `setExtent` assignment of `y1` to `y0` is therefore outside the model.
- Sankey values are reals with `NumberValueCalculator` addition. Custom `ValueCalculator`s, `divide` and `toDouble` are not modelled, and neither are custom `Alignment` implementations beyond the four of `Align`.
- Sankeys.ComputeNodeLinks: a link whose end is neither a key in the map nor a preset node of the graph is reported as an error, where the code throws a `NullPointerException` or keeps a node foreign to the list. A preset node is one of the graph's own positions.
- SankeyLayout.ComputeNodeDepths: the circular-link exception becomes the `Err` result. The depths a thrown loop leaves half-written are not modelled.
- `HashSet` iteration order in the depth/height loops is not modelled. The rounds are sets, and the result does not depend on the order.
- Sankeys.SortLinks: the lists are proved ordered only for a `linkSort` that obeys the comparator sign rule on the graph's links (`AntisymmetricOn`); for any other comparator the model promises only a permutation, since `List.sort` may then throw or return any order.
- ForceBase.Jiggle: the draw 0.5 is excluded from `Math.random()`, so that a jiggle is never exactly zero and the coincidence guards always leave a non-zero component.
- Simulations.Update: runs the corrected listener `Listen`, which re-indexes every node, not `ListenAsWritten` (see Findings). In the model a `LinkForce` refers to its nodes by position and sizes its degree array by the list, where the code's links hold the node objects. After a change of the list's length the model's link force no longer fits, and the simulation is not runnable. A `ManyBodyForce` keeps its strength array, as in the code, so a grown list does not fit it either (the code throws there).
- Simulations.ApplyForce: every force acts on the simulation's own node list. In the code each `Force` is built on its own `ObservableList` and listens to that list, so a force may act on a different list or on a sub-list of the nodes (as the X and Y forces of the demo do); a force on any list other than the simulation's is not modelled.
- LinkForces.NewLinkForce: requires every link end's `index` to be a valid position of the node list (`Wired`, also part of `Ready` for `LinkForceApply`). On an out-of-range index the constructor throws `ArrayIndexOutOfBoundsException` at `count[link.getSource().index]`; that exception path is not modelled.
- ManyBodies.ManyBodyForce: requires every node's `index` to be a valid position of the strength array (`Indexed`). Out of range, the code throws `ArrayIndexOutOfBoundsException` when it reads `strengths[quad.data.index]`; `ManyBodies.NewManyBody` itself has no such requirement, and the exception path is not modelled.
- Collisions.CollideForce: requires every node's `index` to be a valid position of the radius array (`Indexed`). Out of range, the code throws `ArrayIndexOutOfBoundsException` when it reads `radii[node.index]` or `radii[quad.data.index]`; `Collisions.NewCollide` itself has no such requirement, and the exception path is not modelled.
- Simulations.ApplyForce: uses the corrected definitions of the Findings. The link step is D3's, which jiggles a zero component (the code jiggles only a NaN one and yields NaN on a zero vector). The axis and radial pulls give 0 for a NaN target or radius, where the code gives NaN.
- The `ForceAnimation(ObservableList)` constructor is not modelled, only the `Collection` one (`Simulations.NewSimulation`). It only registers the listener, so nodes already in the list keep their NaN positions and get no index; the model's simulation holds settled nodes with real coordinates and cannot represent them.
- Sankeys.ComputeNodeValues: uses the corrected reduction `Reduce`, so a non-empty list of links whose values are all null gives null; as written, `reduce` ends in a NullPointerException there (see Findings).

## Findings

| source | as written | input that shows it | evidently intended | confidence | as-written member | corrected member |
|---|---|---|---|---|---|---|
| d3fx-force/src/main/java/ru/vzotov/d3fx/force/LinkForce.java:74-81 | a look-ahead component is jiggled only when it is NaN, which a difference of positions never is | two linked nodes whose position plus velocity coincide | jiggle a zero component, as D3 does, so the length is never zero | high, not executed | LinkForces.CoincidentEnds | LinkForces.LinkStepPlain |
| d3fx-force/src/main/java/ru/vzotov/d3fx/force/ManyBodyForce.java:19-20 | `distanceMin` and `distanceMax` are stored unsquared in `distanceMin2`/`distanceMax2` | two nodes 50 apart with `distanceMax` 100: 2500 is not below 100, so no force | store the squares, which the comparisons with squared distances expect | high, not executed | ManyBodies.UnsquaredDistanceMax | ManyBodies.DistanceMaxSquared |
| d3fx-force/src/main/java/ru/vzotov/d3fx/force/XForce.java:19 | `(xz[i] - x) * strengths[i] * alpha` with a NaN target and the zero strength the initialisation stored | a target function that returns NaN for a node | a node without a target is not pulled (its strength was set to 0 for that purpose) | medium, not executed | PositionForces.AxisNaNTarget | PositionForces.AxisPullTowardsTarget |
| d3fx-force/src/main/java/ru/vzotov/d3fx/force/RadialForce.java:25 | `(radiuses[i] - r) * strengths[i] * alpha / r` with a NaN radius and the zero strength | a radius function that returns NaN for a node | a node without a ring is not pulled | medium, not executed | PositionForces.RadialDeltaAgrees | PositionForces.RadialPullTowardsRing |
| d3fx-force/src/main/java/ru/vzotov/d3fx/force/ForceAnimation.java:65-74 | the listener initialises added ranges only; after a removal the remaining nodes keep their old indices | three nodes indexed 0, 1, 2; remove the first | every node's index is its new position, as the per-index force arrays assume | high, not executed | Simulations.StaleIndexAfterRemoval | Simulations.Listen |
| d3fx-hierarchy/src/main/java/ru/vzotov/d3fx/hierarchy/AbstractNode.java:288-295 | `LinkedList.push` prepends, so `ancestors` starts at the root | any node with a parent | start with this node, then each parent up to the root | high, not executed | HierarchyOps.AncestorsStartAtRoot | HierarchyOps.AncestorsOrders |
| d3fx-hierarchy/src/main/java/ru/vzotov/d3fx/hierarchy/AbstractNode.java:269-283 | the ascent pushes each parent onto the front of the path | two siblings: the path is parent, first child, second child; a child and its parent as target: the path is parent, child, ending at the start (PathAsWrittenToAncestor; PathAsWrittenShape gives the written path for every pair) | start, up to the common ancestor, down to the target, one edge per step | high, not executed | HierarchyOps.PathAsWrittenSkips | HierarchyOps.PathIsShortestWalk |
| d3fx-hierarchy/src/main/java/ru/vzotov/d3fx/hierarchy/AbstractNode.java:300-304 | every node of `each` is pushed onto the front | any tree with two nodes: the root comes last | the root first, then the nodes in level order | high, not executed | HierarchyOps.DescendantsReversed | HierarchyOps.DescendantsInOrder |
| d3fx-hierarchy/src/main/java/ru/vzotov/d3fx/hierarchy/AbstractNode.java:309-317 | every leaf is pushed onto the front | a root with two leaf children: the second comes first | leaves in traversal order | high, not executed | HierarchyOps.LeavesReversed | HierarchyOps.LeavesInOrder |
| d3fx-sankey/src/main/java/ru/vzotov/d3fx/sankey/Sankey.java:297-298 | `map(Link::value).reduce(calculator::sum)` on a stream whose values are all null: `reduce` throws on a null result | a node with one outgoing link whose value is null | the combined value is null, as `sum` treats null as absent | high, not executed | Sankeys.NullLinkValueThrows | Sankeys.ReduceIsGivenSum |
