/** Pre-order traversal and structural export (backend/app.py, KDTree.preorder
    and KDTree.serialize_node). */
module KdTraversal {
  import opened KdNodes

  /** The stored points in pre-order: a node, then its left subtree, then its right subtree. */
  function PreorderPoints(t: Tree): seq<Point>
  {
    match t
    case Nil => []
    case Node(p, _, l, r) => [p] + PreorderPoints(l) + PreorderPoints(r)
  }

  /** The pre-order listing names every stored point exactly as often as it is stored. */
  lemma {:induction false} PreorderListsEachOnce(t: Tree)
    ensures multiset(PreorderPoints(t)) == Points(t)
    ensures |PreorderPoints(t)| == |Points(t)|
  {
    match t
    case Nil =>
    case Node(p, _, l, r) =>
      PreorderListsEachOnce(l);
      PreorderListsEachOnce(r);
      assert PreorderPoints(t) == [p] + PreorderPoints(l) + PreorderPoints(r);
  }

  /** preorder: appends the points of `t` to the list `res`, node before children,
      and returns that list. */
  method Preorder(t: Tree, res: seq<Point>) returns (out: seq<Point>)
    ensures out == res + PreorderPoints(t)
    decreases t
  {
    out := res;
    if t.Node? {
      out := out + [t.point];
      out := Preorder(t.left, out);
      out := Preorder(t.right, out);
    }
  }

  /** The exported shape of one node: its point as a list, its depth and the
      shapes of its children (None where a child is absent). */
  datatype Shape = Shape(point: seq<int>, depth: nat, left: Option<Shape>, right: Option<Shape>)

  /** serialize_node: None for the empty subtree, otherwise the node's record. */
  function Serialize(t: Tree): (s: Option<Shape>)
    ensures s.None? <==> t.Nil?
  {
    match t
    case Nil => None
    case Node(p, d, l, r) => Some(Shape(p, d, Serialize(l), Serialize(r)))
  }

  /** The points named in an exported shape, read back in pre-order. */
  function ShapePoints(s: Option<Shape>): seq<Point>
  {
    match s
    case None => []
    case Some(Shape(p, _, l, r)) => [p] + ShapePoints(l) + ShapePoints(r)
  }

  /** Rebuilds a subtree from its exported shape. */
  function Rebuild(s: Option<Shape>): Tree
  {
    match s
    case None => Nil
    case Some(Shape(p, d, l, r)) => Node(p, d, Rebuild(l), Rebuild(r))
  }

  /** Flattening the exported shape in pre-order gives exactly the traversal. */
  lemma {:induction false} SerializeFlattensToPreorder(t: Tree)
    ensures ShapePoints(Serialize(t)) == PreorderPoints(t)
  {
    match t
    case Nil =>
    case Node(p, d, l, r) =>
      SerializeFlattensToPreorder(l);
      SerializeFlattensToPreorder(r);
  }

  /** The export loses nothing: the subtree, depths included, is recovered from it. */
  lemma {:induction false} SerializeRoundTrip(t: Tree)
    ensures Rebuild(Serialize(t)) == t
  {
    match t
    case Nil =>
    case Node(p, d, l, r) =>
      SerializeRoundTrip(l);
      SerializeRoundTrip(r);
  }
}
