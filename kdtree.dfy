/** The KDTree object (backend/app.py, class KDTree): it owns the root of the
    node structure, which insert_point and delete_point overwrite, and the
    number of dimensions it was created with. */
module KdTreeObject {
  import opened KdNodes
  import opened KdInsert
  import opened KdDelete
  import opened KdTraversal
  import opened KdNearest

  class KDTree {
    var root: Tree
    const k: nat

    /** The object invariant: every point has `k` coordinates, the partition
        invariant holds from the root, and every stored depth is the node's level. */
    ghost predicate Valid()
      reads this
    {
      Invariant(root, 0, k)
    }

    /** A new, empty tree over `k` dimensions. */
    constructor (k: nat)
      requires k > 0
      ensures Valid() && this.k == k && root == Nil
    {
      this.k := k;
      root := Nil;
    }

    /** insert_point: the root becomes the root returned by the insertion. */
    method InsertPoint(p: Point)
      requires Valid() && |p| == k
      modifies this
      ensures Valid()
      ensures root == Insert(old(root), p, 0, k)
      ensures Points(root) == old(Points(root)) + multiset{p}
    {
      InsertKeepsInvariant(root, p, 0, k);
      root := Insert(root, p, 0, k);
    }

    /** delete_point: the root becomes the root returned by the deletion;
        `removed` reports whether an occurrence of `p` was taken out. */
    method DeletePoint(p: Point) returns (removed: bool)
      requires Valid() && |p| == k
      modifies this
      ensures Valid()
      ensures root == Delete(old(root), p, 0, k)
      ensures removed <==> p in old(Points(root))
      ensures removed ==> Points(root) == old(Points(root)) - multiset{p}
      ensures !removed ==> root == old(root)
    {
      DeleteKeepsInvariant(root, p, 0, k);
      var r := Delete(root, p, 0, k);
      removed := r != root;
      root := r;
    }

    /** get_all_points: every stored point, in pre-order. */
    method GetAllPoints() returns (pts: seq<Point>)
      ensures pts == PreorderPoints(root)
      ensures multiset(pts) == Points(root)
    {
      pts := Preorder(root, []);
      PreorderListsEachOnce(root);
    }

    /** get_tree_structure: the exported shape of the whole tree. */
    function GetTreeStructure(): (s: Option<Shape>)
      reads this
      ensures s.None? <==> root.Nil?
      ensures ShapePoints(s) == PreorderPoints(root)
      ensures Rebuild(s) == root
    {
      SerializeFlattensToPreorder(root);
      SerializeRoundTrip(root);
      Serialize(root)
    }

    /** nearest_neighbor: None for the empty tree, otherwise a stored point at
        minimal squared distance from `target`. */
    function NearestNeighbor(target: Point): (r: Option<Point>)
      reads this
      requires Valid() && |target| == k
      ensures r.None? <==> root.Nil?
      ensures r.Some? ==> r.value in Points(root)
      ensures r.Some? ==> forall q | q in Points(root) :: DistanceSq(target, r.value) <= DistanceSq(target, q)
    {
      NearestNeighborCorrect(root, target, k);
      KdNearest.NearestNeighbor(root, target, k)
    }
  }
}
