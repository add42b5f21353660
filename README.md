# KD-tree model

This project models the k-dimensional tree behind the backend service
(`backend/app.py`, classes `Node` and `KDTree`). The tree stores points with `k`
coordinates. A node at depth `d` splits on axis `d % k`: a point strictly below
the node's coordinate on that axis goes left, and any other point (ties included)
goes right. The model covers:

- insertion;
- the minimum search on one axis (`find_min`);
- deletion by replacement, in all three cases;
- the pre-order listing of all points;
- the structural export used for drawing;
- the squared Euclidean distance;
- the nearest-neighbour search with hyperplane pruning;
- the tree object, whose root is overwritten by `insert_point` and `delete_point`.

Layout, one module per file:

- `nodes.dfy` (`KdNodes`):
  - the node datatype (`Nil | Node(point, depth, left, right)`);
  - the stored-point multiset;
  - the tree invariant, with three parts:
    - every point has `k` coordinates;
    - the partition property: left strictly below, right at least;
    - every stored depth equals the node's level.
- `insert.dfy`, `findmin.dfy`, `delete.dfy`, `traversal.dfy`, `nearest.dfy`: the
  node-level operations. Each is a function returning the new subtree, as the
  source's recursive methods return the (possibly new) subtree root. Each comes
  with lemmas relating it to the stored-point multiset and to the invariant.
- `kdtree.dfy` (`KdTreeObject`): the `KDTree` class. Its `root` field is reassigned
  by `InsertPoint` and `DeletePoint`. The class invariant `Valid()` is the tree
  invariant from the root at depth 0. Re-creating the object, which is how the
  service resets the tree, is the constructor.
- `example.dfy` (`KdExample`): the repository's example data set. The seven points
  are inserted in order and the tree is queried for (12, 16).

## Model

| member | source | states |
|---|---|---|
| KdNodes.EmptyPoints | backend/app.py:115-117 | a subtree stores no point exactly when it is empty; this closes the argument that deleting every stored point leaves the empty tree |
| KdInsert.Insert | backend/app.py:30-43 | every point of the result has `k` coordinates |
| KdInsert.InsertAddsPoint | backend/app.py:30-43 | the stored multiset after insertion is the old one plus exactly the inserted point |
| KdInsert.InsertPartitioned | backend/app.py:35-41 | insertion keeps the partition property: strictly below goes left, ties go right |
| KdInsert.InsertDepths | backend/app.py:32-33 | the new node gets the depth of the empty slot it fills, so every stored depth stays equal to the node's level |
| KdInsert.InsertKeepsInvariant | backend/app.py:30-43 | insertion keeps the whole tree invariant and adds exactly the inserted point |
| KdInsert.InsertAllStoresAll | backend/app.py:45-47 | a tree built by successive insertions, in any order, keeps the invariant and stores exactly the inserted points |
| KdFindMin.MinOver | backend/app.py:66-70 | the two-candidate scan yields the node's point or a present candidate, not above any of them on axis `d`; the node's own point is kept when no candidate is strictly lower |
| KdFindMin.MinOverKeepsFirst | backend/app.py:67-70 | ties keep the earlier choice: a scan that does not end on the node's point ends on a candidate strictly lower than it and than every present candidate before it, so an equal right minimum never replaces the left one |
| KdFindMin.FindMin | backend/app.py:49-72 | None exactly for the empty subtree; otherwise a point with `k` coordinates |
| KdFindMin.FindMinStored | backend/app.py:49-72 | a found minimum is a point stored in the subtree |
| KdFindMin.FindMinIsLowest | backend/app.py:56-72 | given the partition property, no stored point is lower on axis `d` than the found minimum, even when only the left branch is searched |
| KdFindMin.FindMinCorrect | backend/app.py:49-72 | None iff the subtree is empty; otherwise a stored point whose coordinate `d` is at most that of every stored point |
| KdDelete.Delete | backend/app.py:74-113 | every point of the result has `k` coordinates |
| KdDelete.DeleteAbsent | backend/app.py:76-77 | deleting a point that is not stored returns the subtree unchanged |
| KdDelete.DeleteBounds | backend/app.py:81-101 | deletion only keeps or promotes stored points, so any strict upper or lower bound on an axis survives it |
| KdDelete.DeletePartitioned | backend/app.py:81-111 | deletion keeps the partition property in all three cases and on the descent |
| KdDelete.DeleteDepths | backend/app.py:84-97 | deletion never moves a node to another level; in case 2 the left subtree is relinked into the right slot of the same node |
| KdDelete.DeleteRemovesOne | backend/app.py:74-111 | given the partition property, deleting a stored point removes exactly one occurrence of it |
| KdDelete.PromotedRight | backend/app.py:83-86 | case 1: the right subtree's minimum on the node's axis takes the deleted point's place and leaves the right subtree once |
| KdDelete.PromotedLeft | backend/app.py:88-97 | case 2: the left subtree's minimum takes the deleted point's place and the rest of the left subtree becomes the right child |
| KdDelete.DescendedLeft | backend/app.py:108-109 | a point strictly below the split can only be stored on the left, and one occurrence leaves the left subtree |
| KdDelete.DescendedRight | backend/app.py:110-111 | any other point can only be stored on the right, and one occurrence leaves the right subtree |
| KdDelete.DeleteKeepsInvariant | backend/app.py:74-113 | deletion keeps the invariant; a stored point loses one occurrence; a point that is not stored leaves the tree unchanged |
| KdDelete.DeleteAllEmpties | backend/app.py:115-117 | deleting every stored point, one at a time and in any order, leaves the empty tree |
| KdTraversal.PreorderListsEachOnce | backend/app.py:121-131 | the pre-order listing holds every stored point exactly as often as it is stored, and nothing else |
| KdTraversal.Preorder | backend/app.py:121-127 | the accumulator comes back extended by the subtree's points: node first, then the left subtree, then the right subtree |
| KdTraversal.Serialize | backend/app.py:139-149 | the export of a subtree is None exactly when the subtree is empty |
| KdTraversal.SerializeFlattensToPreorder | backend/app.py:139-153 | flattening the exported shape in pre-order gives exactly the points listed by the traversal |
| KdTraversal.SerializeRoundTrip | backend/app.py:139-149 | the export keeps every point, depth and child: the subtree can be rebuilt from it |
| KdNearest.DistanceSq | backend/app.py:134-136 | the sum of squared coordinate differences over the coordinates both points have, as `zip` pairs them; its properties are stated by `CoordinateWithinDistance` and `DistanceSqZero` |
| KdNearest.CoordinateWithinDistance | backend/app.py:134-136 | the squared difference on one axis never exceeds the squared distance |
| KdNearest.DistanceSqZero | backend/app.py:134-136 | for points with the same number of coordinates, the squared distance is 0 exactly when the points are equal, so a zero distance and the equality test of deletion (line 81) agree |
| KdNearest.Closer | backend/app.py:166-172 | the visited point replaces the current best only when strictly closer; the result is one of the two and no farther than either |
| KdNearest.NearChild | backend/app.py:175-180 | the child searched first: left when the target is strictly below the split, right otherwise; `InsertGoesNear` shows it is the child insertion would take |
| KdNearest.FarChild | backend/app.py:175-180 | the other child, searched only when the plane is close enough; `PruneIsSafe` shows that skipping it loses no closer point |
| KdNearest.Nearest | backend/app.py:156-195 | the search returns None only when the subtree is empty and there is no best so far |
| KdNearest.BeyondPlane | backend/app.py:187-191 | every point on the far side of a splitting plane is at least as far from the target as the plane |
| KdNearest.PruneIsSafe | backend/app.py:187-193 | when the squared distance to the plane is not below the best squared distance, no point of the far child is strictly closer, so skipping it loses nothing |
| KdNearest.NearestIsClosest | backend/app.py:156-195 | given the partition property, the answer is no farther than the best so far and than every point of the subtree |
| KdNearest.NearestIsStored | backend/app.py:156-195 | the answer is the best so far or a point of the subtree |
| KdNearest.NearestNeighbor | backend/app.py:197-204 | None exactly for the empty tree, otherwise the search from the root at depth 0 with no best so far; `NearestNeighborCorrect` states the answer is stored and minimal |
| KdNearest.NearestNeighborCorrect | backend/app.py:197-204 | None exactly for the empty tree; otherwise a stored point at minimal squared distance from the target |
| KdNearest.BruteForceNearest | backend/app.py:197-204 | a linear scan used as a reference: None exactly for no points; otherwise a listed point at minimal squared distance |
| KdNearest.NearestMatchesBruteForce | backend/app.py:197-204 | the pruned search and the linear scan over the traversal agree on emptiness and on the nearest squared distance |
| KdNearest.InsertGoesNear | backend/app.py:175-180 | insertion and the search agree on sides: a point is inserted into the child the search for it visits first, ties going right |
| KdTreeObject.KDTree.constructor | backend/app.py:24-26 | a new tree is empty and valid for the given `k` |
| KdTreeObject.KDTree.InsertPoint | backend/app.py:45-47 | the root becomes the insertion's result; the tree stays valid and gains exactly the point |
| KdTreeObject.KDTree.DeletePoint | backend/app.py:115-117 | the root becomes the deletion's result; the tree stays valid; one occurrence is removed when the point was stored, and otherwise nothing changes |
| KdTreeObject.KDTree.GetAllPoints | backend/app.py:129-131 | the listing is the pre-order traversal of the root and holds exactly the stored points |
| KdTreeObject.KDTree.GetTreeStructure | backend/app.py:151-153 | None for the empty tree; flattening the shape gives the traversal; the tree is recoverable from it |
| KdTreeObject.KDTree.NearestNeighbor | backend/app.py:197-204 | None exactly for the empty tree; otherwise a stored point no farther from the target than any stored point |
| KdExample.BuiltNearest | backend/app.py:197-204 | for a tree built by inserting a list of points, the answer is one of those points and none of them is closer |
| KdExample.OnlyThirdIsClosest | frontend/src/components/Codes.jsx:250-256 | among the example points, (13, 15) is the only one at minimal squared distance from (12, 16) |
| KdExample.ExampleNearest | frontend/src/components/Codes.jsx:250-256 | inserting the example points in order and querying (12, 16) yields (13, 15) |

## Left out

- The Flask routes, JSON parsing, error responses and CORS (`backend/app.py:1-8`, `207-277`) are request plumbing around one global tree, so they are not modelled. The `/delete` route always reports success. `DeletePoint` instead returns whether an occurrence was removed.
- Coordinates are exact integers. The service converts inputs to floating point, and IEEE rounding is not modelled.
- Points must have exactly `k` coordinates (a `requires` on insertion, deletion and search). The source does not check this. A shorter point may raise an index error on the descent, but it is stored without error when it lands in an empty tree or its descent ends before a missing axis is read. Longer points are stored as given. `distance_sq` would silently compare only the common prefix. `DistanceSq` keeps that prefix behaviour, but the tree operations are only specified for points of length `k`.
- Nodes are immutable values. Each operation returns the new subtree instead of assigning `left`, `right` and `point` in place. Nodes are never shared in the source, so no aliasing is lost.
- The second equality test in deletion (`backend/app.py:105-107`) is not modelled. It can never be reached, because line 81 makes the same test first.
- `find_min` returns the minimal point rather than the node holding it. Deletion only ever reads that node's point.
- The default `k = 2` of the service is a parameter here. The reset route re-creates the tree (`backend/app.py:270`), which is the constructor.
- The frontend is not modelled: React state, canvas drawing, pixel conversion and the multi-language code strings in `Codes.jsx`. The only part used is the example data set of `Codes.jsx`, and that listing builds its tree by median splits. `KdExample` instead inserts the points in order, as the service does.
