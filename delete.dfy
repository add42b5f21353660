/** Deletion (backend/app.py, KDTree.delete): locate the point by the insertion
    descent, then replace it by the minimum on the node's axis taken from the
    right subtree, or from the left subtree moved into the right slot, or drop
    the leaf. */
module KdDelete {
  import opened KdNodes
  import opened KdFindMin

  /** The subtree after deleting one occurrence of `p` below a node at `depth`. */
  function Delete(t: Tree, p: Point, depth: nat, k: nat): (r: Tree)
    requires k > 0 && |p| == k && Dims(t, k)
    ensures Dims(r, k)
    decreases t
  {
    match t
    case Nil => Nil
    case Node(q, d, l, rt) =>
      var a := Axis(depth, k);
      if q == p then
        if rt.Node? then
          // the right subtree's minimum on this node's axis takes its place
          var m := FindMin(rt, a, depth + 1, k).value;
          Node(m, d, l, Delete(rt, m, depth + 1, k))
        else if l.Node? then
          // the left subtree's minimum takes its place; the rest moves to the right slot
          var m := FindMin(l, a, depth + 1, k).value;
          Node(m, d, Nil, Delete(l, m, depth + 1, k))
        else
          Nil
      else if p[a] < q[a] then
        Node(q, d, Delete(l, p, depth + 1, k), rt)
      else
        Node(q, d, l, Delete(rt, p, depth + 1, k))
  }

  /** Deleting a point that is not stored returns the subtree untouched. */
  lemma {:induction false} DeleteAbsent(t: Tree, p: Point, depth: nat, k: nat)
    requires k > 0 && |p| == k && Dims(t, k) && p !in Points(t)
    ensures Delete(t, p, depth, k) == t
    decreases t
  {
    match t
    case Nil =>
    case Node(q, d, l, rt) =>
      DeleteAbsent(l, p, depth + 1, k);
      DeleteAbsent(rt, p, depth + 1, k);
  }

  /** Deletion only ever keeps points that were stored, so every bound on the
      subtree still holds afterwards. */
  lemma {:induction false} DeleteBounds(t: Tree, p: Point, depth: nat, k: nat, a: nat, v: int)
    requires k > 0 && |p| == k && Dims(t, k)
    ensures Below(t, a, v) ==> Below(Delete(t, p, depth, k), a, v)
    ensures AtLeast(t, a, v) ==> AtLeast(Delete(t, p, depth, k), a, v)
    decreases t
  {
    match t
    case Nil =>
    case Node(q, d, l, rt) =>
      var ax := Axis(depth, k);
      if q == p && rt.Node? {
        var m := FindMin(rt, ax, depth + 1, k).value;
        FindMinStored(rt, ax, depth + 1, k);
        BelowMembers(rt, a, v);
        AtLeastMembers(rt, a, v);
        DeleteBounds(rt, m, depth + 1, k, a, v);
      } else if q == p && l.Node? {
        var m := FindMin(l, ax, depth + 1, k).value;
        FindMinStored(l, ax, depth + 1, k);
        BelowMembers(l, a, v);
        AtLeastMembers(l, a, v);
        DeleteBounds(l, m, depth + 1, k, a, v);
      } else if q != p {
        DeleteBounds(l, p, depth + 1, k, a, v);
        DeleteBounds(rt, p, depth + 1, k, a, v);
      }
  }

  /** Deletion keeps the partition invariant, whether or not `p` is stored. */
  lemma {:induction false} DeletePartitioned(t: Tree, p: Point, depth: nat, k: nat)
    requires k > 0 && |p| == k && Dims(t, k) && Partitioned(t, depth, k)
    ensures Partitioned(Delete(t, p, depth, k), depth, k)
    decreases t
  {
    match t
    case Nil =>
    case Node(q, d, l, rt) =>
      var a := Axis(depth, k);
      if q == p && rt.Node? {
        // case 1: every left point is below q, hence below m; every right point is at least m
        var m := FindMin(rt, a, depth + 1, k).value;
        FindMinStored(rt, a, depth + 1, k);
        FindMinIsLowest(rt, a, depth + 1, k);
        AtLeastMembers(rt, a, q[a]);
        BoundsWeaken(l, a, q[a], m[a]);
        DeleteBounds(rt, m, depth + 1, k, a, m[a]);
        DeletePartitioned(rt, m, depth + 1, k);
      } else if q == p && l.Node? {
        // case 2: every remaining point of the moved subtree is at least m
        var m := FindMin(l, a, depth + 1, k).value;
        FindMinIsLowest(l, a, depth + 1, k);
        DeleteBounds(l, m, depth + 1, k, a, m[a]);
        DeletePartitioned(l, m, depth + 1, k);
      } else if q != p {
        DeleteBounds(l, p, depth + 1, k, a, q[a]);
        DeleteBounds(rt, p, depth + 1, k, a, q[a]);
        DeletePartitioned(l, p, depth + 1, k);
        DeletePartitioned(rt, p, depth + 1, k);
      }
  }

  /** Deletion never moves a node to another level: in case 2 the left subtree
      is relinked into the right slot of the same node. */
  lemma {:induction false} DeleteDepths(t: Tree, p: Point, depth: nat, k: nat)
    requires k > 0 && |p| == k && Dims(t, k) && DepthsFrom(t, depth)
    ensures DepthsFrom(Delete(t, p, depth, k), depth)
    decreases t
  {
    match t
    case Nil =>
    case Node(q, d, l, rt) =>
      var a := Axis(depth, k);
      if q == p && rt.Node? {
        DeleteDepths(rt, FindMin(rt, a, depth + 1, k).value, depth + 1, k);
      } else if q == p && l.Node? {
        DeleteDepths(l, FindMin(l, a, depth + 1, k).value, depth + 1, k);
      } else if q != p {
        DeleteDepths(l, p, depth + 1, k);
        DeleteDepths(rt, p, depth + 1, k);
      }
  }

  /** Given the partition invariant, deleting a stored point removes exactly one
      occurrence of it: the descent always reaches a node holding it. */
  lemma {:induction false} DeleteRemovesOne(t: Tree, p: Point, depth: nat, k: nat)
    requires k > 0 && |p| == k && Dims(t, k) && Partitioned(t, depth, k) && p in Points(t)
    ensures Points(Delete(t, p, depth, k)) == Points(t) - multiset{p}
    decreases t, 1
  {
    var a := Axis(depth, k);
    if t.point == p && t.right.Node? {
      PromotedRight(t, p, depth, k);
    } else if t.point == p && t.left.Node? {
      PromotedLeft(t, p, depth, k);
    } else if t.point != p && p[a] < t.point[a] {
      DescendedLeft(t, p, depth, k);
    } else if t.point != p {
      DescendedRight(t, p, depth, k);
    }
  }

  /** Case 1 of the deletion: the right subtree gives up its minimum `m`, which
      takes the place of `p`. */
  lemma {:induction false} PromotedRight(t: Tree, p: Point, depth: nat, k: nat)
    requires k > 0 && |p| == k && Dims(t, k) && Partitioned(t, depth, k)
    requires t.Node? && t.point == p && t.right.Node?
    ensures Points(Delete(t, p, depth, k)) == Points(t) - multiset{p}
    decreases t, 0
  {
    var rt := t.right;
    var m := FindMin(rt, Axis(depth, k), depth + 1, k).value;
    FindMinStored(rt, Axis(depth, k), depth + 1, k);
    DeleteRemovesOne(rt, m, depth + 1, k);
    Promoted(p, m, Points(t.left), Points(rt), Points(Delete(rt, m, depth + 1, k)));
  }

  /** Case 2 of the deletion: the left subtree gives up its minimum `m`, which
      takes the place of `p`, and what is left of it becomes the right child. */
  lemma {:induction false} PromotedLeft(t: Tree, p: Point, depth: nat, k: nat)
    requires k > 0 && |p| == k && Dims(t, k) && Partitioned(t, depth, k)
    requires t.Node? && t.point == p && t.right.Nil? && t.left.Node?
    ensures Points(Delete(t, p, depth, k)) == Points(t) - multiset{p}
    decreases t, 0
  {
    var l := t.left;
    var m := FindMin(l, Axis(depth, k), depth + 1, k).value;
    FindMinStored(l, Axis(depth, k), depth + 1, k);
    DeleteRemovesOne(l, m, depth + 1, k);
    Promoted(p, m, multiset{}, Points(l), Points(Delete(l, m, depth + 1, k)));
  }

  /** A descent to the left: `p` is below the node's split value, so it can only
      be stored in the left subtree, and it leaves that subtree. */
  lemma {:induction false} DescendedLeft(t: Tree, p: Point, depth: nat, k: nat)
    requires k > 0 && |p| == k && Dims(t, k) && Partitioned(t, depth, k) && p in Points(t)
    requires t.Node? && t.point != p && p[Axis(depth, k)] < t.point[Axis(depth, k)]
    ensures Points(Delete(t, p, depth, k)) == Points(t) - multiset{p}
    decreases t, 0
  {
    var Node(q, _, l, rt) := t;
    AtLeastMembers(rt, Axis(depth, k), q[Axis(depth, k)]);
    DeleteRemovesOne(l, p, depth + 1, k);
    Descended(p, q, Points(l), Points(rt), Points(Delete(l, p, depth + 1, k)));
  }

  /** A descent to the right: `p` is not below the node's split value, so it can
      only be stored in the right subtree, and it leaves that subtree. */
  lemma {:induction false} DescendedRight(t: Tree, p: Point, depth: nat, k: nat)
    requires k > 0 && |p| == k && Dims(t, k) && Partitioned(t, depth, k) && p in Points(t)
    requires t.Node? && t.point != p && t.point[Axis(depth, k)] <= p[Axis(depth, k)]
    ensures Points(Delete(t, p, depth, k)) == Points(t) - multiset{p}
    decreases t, 0
  {
    var Node(q, _, l, rt) := t;
    BelowMembers(l, Axis(depth, k), q[Axis(depth, k)]);
    DeleteRemovesOne(rt, p, depth + 1, k);
    Descended(p, q, Points(rt), Points(l), Points(Delete(rt, p, depth + 1, k)));
  }

  /** Deletion keeps the whole invariant; a stored point loses one occurrence
      and a point that is not stored leaves the subtree as it was. */
  lemma DeleteKeepsInvariant(t: Tree, p: Point, depth: nat, k: nat)
    requires Invariant(t, depth, k) && |p| == k
    ensures Invariant(Delete(t, p, depth, k), depth, k)
    ensures p in Points(t) ==> Points(Delete(t, p, depth, k)) == Points(t) - multiset{p}
    ensures p !in Points(t) ==> Delete(t, p, depth, k) == t
  {
    DeletePartitioned(t, p, depth, k);
    DeleteDepths(t, p, depth, k);
    if p in Points(t) {
      DeleteRemovesOne(t, p, depth, k);
    } else {
      DeleteAbsent(t, p, depth, k);
    }
  }

  /** Deleting the points of `ps` one after another, from the root. */
  function DeleteAll(t: Tree, ps: seq<Point>, k: nat): (r: Tree)
    requires k > 0 && Dims(t, k) && forall i | 0 <= i < |ps| :: |ps[i]| == k
    ensures Dims(r, k)
    decreases |ps|
  {
    if ps == [] then t else DeleteAll(Delete(t, ps[0], 0, k), ps[1..], k)
  }

  /** Deleting every stored point, one at a time and in any order, empties the tree. */
  lemma {:induction false} DeleteAllEmpties(t: Tree, ps: seq<Point>, k: nat)
    requires Invariant(t, 0, k) && forall i | 0 <= i < |ps| :: |ps[i]| == k
    requires multiset(ps) == Points(t)
    ensures DeleteAll(t, ps, k) == Nil
    decreases |ps|
  {
    if ps == [] {
      EmptyPoints(t);
    } else {
      assert ps == [ps[0]] + ps[1..];
      assert ps[0] in Points(t);
      DeleteKeepsInvariant(t, ps[0], 0, k);
      DeleteAllEmpties(Delete(t, ps[0], 0, k), ps[1..], k);
    }
  }

  /** The multiset step of a promotion: `p` leaves, `m` moves up out of `s`. */
  lemma Promoted(p: Point, m: Point, other: multiset<Point>, s: multiset<Point>, s': multiset<Point>)
    requires m in s && s' == s - multiset{m}
    ensures multiset{m} + other + s' == (multiset{p} + other + s) - multiset{p}
  {
  }

  /** The multiset step of a descent: `p` leaves the child `s` it was found in. */
  lemma Descended(p: Point, q: Point, s: multiset<Point>, other: multiset<Point>, s': multiset<Point>)
    requires p in s && s' == s - multiset{p}
    ensures multiset{q} + s' + other == (multiset{q} + s + other) - multiset{p}
    ensures multiset{q} + other + s' == (multiset{q} + other + s) - multiset{p}
  {
  }
}
