/** The data model of the KD-tree: points, nodes, and the invariants every
    operation keeps (backend/app.py, class Node and the tree it hangs from). */
module KdNodes {

  datatype Option<+T> = None | Some(value: T)

  /** A point is its tuple of coordinates; coordinates are exact integers. */
  type Point = seq<int>

  /** A subtree. `Nil` is Python's `None`; a `Node` owns its point, the depth it
      was created at, and its two children (never shared with another node). */
  datatype Tree = Nil | Node(point: Point, depth: nat, left: Tree, right: Tree)

  /** The points stored in a subtree, with their multiplicities. */
  function Points(t: Tree): multiset<Point>
  {
    match t
    case Nil => multiset{}
    case Node(p, _, l, r) => multiset{p} + Points(l) + Points(r)
  }

  /** Every stored point has exactly `k` coordinates. */
  predicate Dims(t: Tree, k: nat)
  {
    match t
    case Nil => true
    case Node(p, _, l, r) => |p| == k && Dims(l, k) && Dims(r, k)
  }

  /** The dimension a node at `depth` splits on (`depth % self.k`). */
  function Axis(depth: nat, k: nat): (a: nat)
    requires k > 0
    ensures a < k
  {
    depth % k
  }

  /** Every point of `t` lies strictly below `v` on axis `a`. */
  predicate Below(t: Tree, a: nat, v: int)
  {
    match t
    case Nil => true
    case Node(p, _, l, r) => a < |p| && p[a] < v && Below(l, a, v) && Below(r, a, v)
  }

  /** Every point of `t` lies at or above `v` on axis `a`. */
  predicate AtLeast(t: Tree, a: nat, v: int)
  {
    match t
    case Nil => true
    case Node(p, _, l, r) => a < |p| && p[a] >= v && AtLeast(l, a, v) && AtLeast(r, a, v)
  }

  /** The partition invariant: at every node, the left subtree lies strictly
      below the node on the node's axis and the right subtree lies at or above it. */
  predicate Partitioned(t: Tree, depth: nat, k: nat)
    requires k > 0 && Dims(t, k)
  {
    match t
    case Nil => true
    case Node(p, _, l, r) =>
      var a := Axis(depth, k);
      Below(l, a, p[a]) && AtLeast(r, a, p[a]) &&
      Partitioned(l, depth + 1, k) && Partitioned(r, depth + 1, k)
  }

  /** Every node's stored depth is `depth` plus its distance from the top of `t`. */
  predicate DepthsFrom(t: Tree, depth: nat)
  {
    match t
    case Nil => true
    case Node(_, d, l, r) => d == depth && DepthsFrom(l, depth + 1) && DepthsFrom(r, depth + 1)
  }

  /** Everything the tree operations keep true of a subtree rooted at `depth`. */
  predicate Invariant(t: Tree, depth: nat, k: nat)
  {
    k > 0 && Dims(t, k) && Partitioned(t, depth, k) && DepthsFrom(t, depth)
  }

  /** Only the empty subtree stores no point. */
  lemma EmptyPoints(t: Tree)
    ensures Points(t) == multiset{} <==> t == Nil
  {
  }

  /** The points of a node are its own point and the points of its two children. */
  lemma NodeMembers(t: Tree)
    requires t.Node?
    ensures t.point in Points(t)
    ensures forall q | q in Points(t) :: q == t.point || q in Points(t.left) || q in Points(t.right)
    ensures forall q | q in Points(t.left) :: q in Points(t)
    ensures forall q | q in Points(t.right) :: q in Points(t)
    ensures Points(t.left) <= Points(t) && Points(t.right) <= Points(t)
  {
  }

  /** `Below` speaks of exactly the stored points. */
  lemma {:induction false} BelowMembers(t: Tree, a: nat, v: int)
    ensures Below(t, a, v) <==> forall q | q in Points(t) :: a < |q| && q[a] < v
  {
    match t
    case Nil =>
    case Node(p, _, l, r) =>
      BelowMembers(l, a, v);
      BelowMembers(r, a, v);
      NodeMembers(t);
  }

  /** `AtLeast` speaks of exactly the stored points. */
  lemma {:induction false} AtLeastMembers(t: Tree, a: nat, v: int)
    ensures AtLeast(t, a, v) <==> forall q | q in Points(t) :: a < |q| && q[a] >= v
  {
    match t
    case Nil =>
    case Node(p, _, l, r) =>
      AtLeastMembers(l, a, v);
      AtLeastMembers(r, a, v);
      NodeMembers(t);
  }

  /** `Dims` speaks of exactly the stored points. */
  lemma {:induction false} DimsMembers(t: Tree, k: nat)
    ensures Dims(t, k) <==> forall q | q in Points(t) :: |q| == k
  {
    match t
    case Nil =>
    case Node(p, _, l, r) =>
      DimsMembers(l, k);
      DimsMembers(r, k);
      NodeMembers(t);
  }

  /** A looser bound still holds. */
  lemma {:induction false} BoundsWeaken(t: Tree, a: nat, v: int, w: int)
    ensures Below(t, a, v) && v <= w ==> Below(t, a, w)
    ensures AtLeast(t, a, v) && w <= v ==> AtLeast(t, a, w)
  {
    match t
    case Nil =>
    case Node(_, _, l, r) =>
      BoundsWeaken(l, a, v, w);
      BoundsWeaken(r, a, v, w);
  }
}
