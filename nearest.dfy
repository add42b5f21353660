/** Nearest-neighbour search with hyperplane pruning (backend/app.py,
    KDTree.distance_sq, KDTree.nearest and KDTree.nearest_neighbor). */
module KdNearest {
  import opened KdNodes
  import opened KdInsert
  import opened KdTraversal

  /** The square of a coordinate difference (`** 2` in the source). */
  function Square(x: int): (r: nat)
  {
    x * x
  }

  /** distance_sq: the sum of the squared coordinate differences, over the
      coordinates the two points share (Python's zip stops at the shorter). */
  function DistanceSq(p1: Point, p2: Point): nat
    decreases |p1|
  {
    if |p1| == 0 || |p2| == 0 then 0
    else Square(p1[0] - p2[0]) + DistanceSq(p1[1..], p2[1..])
  }

  /** One coordinate's squared difference never exceeds the squared distance. */
  lemma {:induction false} CoordinateWithinDistance(p1: Point, p2: Point, a: nat)
    requires a < |p1| && a < |p2|
    ensures Square(p1[a] - p2[a]) <= DistanceSq(p1, p2)
    decreases a
  {
    if a > 0 {
      CoordinateWithinDistance(p1[1..], p2[1..], a - 1);
    }
  }

  /** Points of equal length are at squared distance zero exactly when they are equal. */
  lemma {:induction false} DistanceSqZero(p1: Point, p2: Point)
    requires |p1| == |p2|
    ensures DistanceSq(p1, p2) == 0 <==> p1 == p2
    decreases |p1|
  {
    if |p1| > 0 {
      DistanceSqZero(p1[1..], p2[1..]);
      if DistanceSq(p1, p2) == 0 {
        assert p1[0] == p2[0];
        assert p1 == [p1[0]] + p1[1..] && p2 == [p2[0]] + p2[1..];
      }
    }
  }

  lemma SquareGrows(u: int, v: int)
    requires 0 <= u <= v
    ensures Square(u) <= Square(v)
  {
    assert u * u <= u * v <= v * v;
  }

  /** A coordinate `y` beyond the split value `s`, as seen from `x`, is at least
      as far from `x` as the split value is. */
  lemma PlaneBound(x: int, s: int, y: int)
    requires x < s <= y || y < s <= x
    ensures Square(x - s) <= Square(x - y)
  {
    if x < s {
      SquareGrows(s - x, y - x);
      assert Square(x - s) == Square(s - x) && Square(x - y) == Square(y - x);
    } else {
      SquareGrows(x - s, x - y);
    }
  }

  /** No point of `t` is at squared distance below `v` from `target`. */
  predicate NoneCloser(t: Tree, target: Point, v: int)
  {
    match t
    case Nil => true
    case Node(p, _, l, r) => DistanceSq(target, p) >= v && NoneCloser(l, target, v) && NoneCloser(r, target, v)
  }

  /** `NoneCloser` speaks of exactly the stored points. */
  lemma {:induction false} NoneCloserMembers(t: Tree, target: Point, v: int)
    ensures NoneCloser(t, target, v) <==> forall q | q in Points(t) :: DistanceSq(target, q) >= v
  {
    match t
    case Nil =>
    case Node(p, _, l, r) =>
      NoneCloserMembers(l, target, v);
      NoneCloserMembers(r, target, v);
      NodeMembers(t);
  }

  lemma {:induction false} NoneCloserWeaken(t: Tree, target: Point, v: int, w: int)
    requires NoneCloser(t, target, v) && w <= v
    ensures NoneCloser(t, target, w)
  {
    match t
    case Nil =>
    case Node(_, _, l, r) =>
      NoneCloserWeaken(l, target, v, w);
      NoneCloserWeaken(r, target, v, w);
  }

  /** The child the search visits first: the side insertion would take for
      `target` (strictly below the split goes left, ties go right). */
  function NearChild(t: Tree, target: Point, depth: nat, k: nat): Tree
    requires k > 0 && t.Node? && |target| == k && |t.point| == k
  {
    if target[Axis(depth, k)] < t.point[Axis(depth, k)] then t.left else t.right
  }

  /** The child the search visits only when the splitting plane is close enough. */
  function FarChild(t: Tree, target: Point, depth: nat, k: nat): Tree
    requires k > 0 && t.Node? && |target| == k && |t.point| == k
  {
    if target[Axis(depth, k)] < t.point[Axis(depth, k)] then t.right else t.left
  }

  /** The better of the current best and a visited point: the visited point
      replaces the best only when it is strictly closer. */
  function Closer(target: Point, cand: Point, best: Point): (r: Point)
    ensures r == cand || r == best
    ensures DistanceSq(target, r) <= DistanceSq(target, cand)
    ensures DistanceSq(target, r) <= DistanceSq(target, best)
    ensures DistanceSq(target, cand) < DistanceSq(target, best) ==> r == cand
    ensures DistanceSq(target, best) <= DistanceSq(target, cand) ==> r == best
  {
    if DistanceSq(target, cand) < DistanceSq(target, best) then cand else best
  }

  /** nearest: the closest of `best` and the points of `t` visited by the
      pruned descent. */
  function Nearest(t: Tree, target: Point, depth: nat, k: nat, best: Option<Point>): (r: Option<Point>)
    requires k > 0 && |target| == k && Dims(t, k)
    ensures r.None? <==> t.Nil? && best.None?
    decreases t
  {
    match t
    case Nil => best
    case Node(p, _, l, rt) =>
      var b1 := Closer(target, p, if best.None? then p else best.value);
      var b2 := Nearest(NearChild(t, target, depth, k), target, depth + 1, k, Some(b1)).value;
      var a := Axis(depth, k);
      if Square(target[a] - p[a]) < DistanceSq(target, b2) then
        Nearest(FarChild(t, target, depth, k), target, depth + 1, k, Some(b2))
      else
        Some(b2)
  }

  /** Every point on the far side of the plane at `s` on axis `a` is at least as
      far from `target` as the plane is. */
  lemma {:induction false} BeyondPlane(t: Tree, target: Point, a: nat, s: int, v: int)
    requires a < |target| && Square(target[a] - s) >= v
    requires (target[a] < s && AtLeast(t, a, s)) || (s <= target[a] && Below(t, a, s))
    ensures NoneCloser(t, target, v)
  {
    match t
    case Nil =>
    case Node(q, _, l, r) =>
      CoordinateWithinDistance(target, q, a);
      PlaneBound(target[a], s, q[a]);
      BeyondPlane(l, target, a, s, v);
      BeyondPlane(r, target, a, s, v);
  }

  /** The pruning test is safe: when the squared distance to the splitting plane
      is not below the best squared distance, no point of the far child is
      strictly closer than the best. */
  lemma PruneIsSafe(t: Tree, target: Point, depth: nat, k: nat, v: int)
    requires k > 0 && |target| == k && t.Node? && Dims(t, k) && Partitioned(t, depth, k)
    requires Square(target[Axis(depth, k)] - t.point[Axis(depth, k)]) >= v
    ensures NoneCloser(FarChild(t, target, depth, k), target, v)
  {
    BeyondPlane(FarChild(t, target, depth, k), target, Axis(depth, k), t.point[Axis(depth, k)], v);
  }

  /** Given the partition invariant, the search's answer is at least as close as
      `best` and as every point of `t`. */
  lemma {:induction false} NearestIsClosest(t: Tree, target: Point, depth: nat, k: nat, best: Option<Point>)
    requires k > 0 && |target| == k && Dims(t, k) && Partitioned(t, depth, k)
    ensures var r := Nearest(t, target, depth, k, best);
      r.Some? ==> NoneCloser(t, target, DistanceSq(target, r.value))
    ensures var r := Nearest(t, target, depth, k, best);
      best.Some? ==> DistanceSq(target, r.value) <= DistanceSq(target, best.value)
    decreases t
  {
    if t.Node? {
      var p := t.point;
      var b1 := Closer(target, p, if best.None? then p else best.value);
      var near, far := NearChild(t, target, depth, k), FarChild(t, target, depth, k);
      NearestIsClosest(near, target, depth + 1, k, Some(b1));
      var b2 := Nearest(near, target, depth + 1, k, Some(b1)).value;
      var r := Nearest(t, target, depth, k, best).value;
      var a := Axis(depth, k);
      if Square(target[a] - p[a]) < DistanceSq(target, b2) {
        NearestIsClosest(far, target, depth + 1, k, Some(b2));
        assert r == Nearest(far, target, depth + 1, k, Some(b2)).value;
        NoneCloserWeaken(near, target, DistanceSq(target, b2), DistanceSq(target, r));
      } else {
        assert r == b2;
        PruneIsSafe(t, target, depth, k, DistanceSq(target, b2));
      }
      NodeNoneCloser(t, target, depth, k, DistanceSq(target, r));
    }
  }

  /** A node has no point closer than `v` when neither it nor its near or far child has. */
  lemma NodeNoneCloser(t: Tree, target: Point, depth: nat, k: nat, v: int)
    requires k > 0 && |target| == k && t.Node? && |t.point| == k
    requires DistanceSq(target, t.point) >= v
    requires NoneCloser(NearChild(t, target, depth, k), target, v)
    requires NoneCloser(FarChild(t, target, depth, k), target, v)
    ensures NoneCloser(t, target, v)
  {
  }

  /** The search's answer is `best` or a stored point. */
  lemma {:induction false} NearestIsStored(t: Tree, target: Point, depth: nat, k: nat, best: Option<Point>)
    requires k > 0 && |target| == k && Dims(t, k)
    ensures var r := Nearest(t, target, depth, k, best);
      r.Some? ==> r == best || r.value in Points(t)
    decreases t
  {
    if t.Node? {
      var p := t.point;
      var b1 := Closer(target, p, if best.None? then p else best.value);
      var near, far := NearChild(t, target, depth, k), FarChild(t, target, depth, k);
      NearestIsStored(near, target, depth + 1, k, Some(b1));
      var b2 := Nearest(near, target, depth + 1, k, Some(b1)).value;
      NearestIsStored(far, target, depth + 1, k, Some(b2));
      var r3 := Nearest(far, target, depth + 1, k, Some(b2)).value;
      var r := Nearest(t, target, depth, k, best).value;
      assert r == b2 || r == r3;
      ChildPoints(t, target, depth, k);
      Traced(p, best, b1, b2, r3, r, Points(t), Points(near), Points(far));
    }
  }

  /** How the answer traces back through the node, its near child and its far child. */
  lemma Traced(p: Point, best: Option<Point>, b1: Point, b2: Point, r3: Point, r: Point,
               here: multiset<Point>, near: multiset<Point>, far: multiset<Point>)
    requires p in here && near <= here && far <= here
    requires b1 == p || Some(b1) == best
    requires b2 == b1 || b2 in near
    requires r3 == b2 || r3 in far
    requires r == b2 || r == r3
    ensures Some(r) == best || r in here
  {
  }

  /** The points of both children are points of the node. */
  lemma ChildPoints(t: Tree, target: Point, depth: nat, k: nat)
    requires k > 0 && |target| == k && t.Node? && |t.point| == k
    ensures t.point in Points(t)
    ensures Points(NearChild(t, target, depth, k)) <= Points(t)
    ensures Points(FarChild(t, target, depth, k)) <= Points(t)
  {
    NodeMembers(t);
  }

  /** nearest_neighbor: None for the empty tree, otherwise the search from the root. */
  function NearestNeighbor(root: Tree, target: Point, k: nat): (r: Option<Point>)
    requires k > 0 && |target| == k && Dims(root, k)
    ensures r.None? <==> root.Nil?
  {
    if root.Nil? then None else Nearest(root, target, 0, k, None)
  }

  /** nearest_neighbor returns None exactly for the empty tree, and otherwise a
      stored point whose squared distance to the target is minimal. */
  lemma NearestNeighborCorrect(root: Tree, target: Point, k: nat)
    requires k > 0 && |target| == k && Dims(root, k) && Partitioned(root, 0, k)
    ensures NearestNeighbor(root, target, k).None? <==> root.Nil?
    ensures root.Node? ==> NearestNeighbor(root, target, k).value in Points(root)
    ensures root.Node? ==> forall q | q in Points(root) ::
      DistanceSq(target, NearestNeighbor(root, target, k).value) <= DistanceSq(target, q)
  {
    if root.Node? {
      var r := NearestNeighbor(root, target, k).value;
      NearestIsStored(root, target, 0, k, None);
      NearestIsClosest(root, target, 0, k, None);
      NoneCloserMembers(root, target, DistanceSq(target, r));
    }
  }

  /** The reference answer: a linear scan over `pts` that keeps the first point
      at the smallest squared distance. */
  function BruteForceNearest(pts: seq<Point>, target: Point): (r: Option<Point>)
    ensures r.None? <==> pts == []
    ensures r.Some? ==> r.value in pts
    ensures r.Some? ==> forall i | 0 <= i < |pts| :: DistanceSq(target, r.value) <= DistanceSq(target, pts[i])
    decreases |pts|
  {
    if pts == [] then None
    else
      var last := pts[|pts| - 1];
      var b := BruteForceNearest(pts[..|pts| - 1], target);
      if b.None? || DistanceSq(target, last) < DistanceSq(target, b.value) then Some(last) else b
  }

  /** The pruned search and the brute-force scan over the traversal agree on
      emptiness and on the nearest squared distance. */
  lemma NearestMatchesBruteForce(root: Tree, target: Point, k: nat)
    requires k > 0 && |target| == k && Dims(root, k) && Partitioned(root, 0, k)
    ensures NearestNeighbor(root, target, k).None? <==> BruteForceNearest(PreorderPoints(root), target).None?
    ensures root.Node? ==>
      DistanceSq(target, NearestNeighbor(root, target, k).value) ==
      DistanceSq(target, BruteForceNearest(PreorderPoints(root), target).value)
  {
    var pts := PreorderPoints(root);
    PreorderListsEachOnce(root);
    NearestNeighborCorrect(root, target, k);
    if root.Node? {
      SameMinimum(target, NearestNeighbor(root, target, k).value,
                  BruteForceNearest(pts, target).value, pts, Points(root));
    }
  }

  /** Two points that are each closest among the same collection are equally close. */
  lemma SameMinimum(target: Point, r: Point, b: Point, pts: seq<Point>, stored: multiset<Point>)
    requires multiset(pts) == stored
    requires r in stored && forall q | q in stored :: DistanceSq(target, r) <= DistanceSq(target, q)
    requires b in pts && forall i | 0 <= i < |pts| :: DistanceSq(target, b) <= DistanceSq(target, pts[i])
    ensures DistanceSq(target, r) == DistanceSq(target, b)
  {
    assert b in multiset(pts);
    assert r in multiset(pts);
    var i :| 0 <= i < |pts| && pts[i] == r;
  }

  /** Insertion and the search agree on sides: a point inserted into a node goes
      into the child the search for that point visits first, ties included. */
  lemma InsertGoesNear(t: Tree, x: Point, depth: nat, k: nat)
    requires k > 0 && |x| == k && Dims(t, k) && t.Node?
    ensures var t' := Insert(t, x, depth, k);
      t'.point == t.point &&
      FarChild(t', x, depth, k) == FarChild(t, x, depth, k) &&
      NearChild(t', x, depth, k) == Insert(NearChild(t, x, depth, k), x, depth + 1, k)
  {
  }
}
