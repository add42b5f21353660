/** Insertion (backend/app.py, KDTree.insert): alternating-axis descent,
    strictly-less to the left, ties to the right, a new leaf in the first
    empty slot. */
module KdInsert {
  import opened KdNodes

  /** The subtree after inserting `p` below a node at `depth`. */
  function Insert(t: Tree, p: Point, depth: nat, k: nat): (r: Tree)
    requires k > 0 && |p| == k && Dims(t, k)
    ensures Dims(r, k)
    decreases t
  {
    match t
    case Nil => Node(p, depth, Nil, Nil)
    case Node(q, d, l, rt) =>
      var a := Axis(depth, k);
      if p[a] < q[a] then Node(q, d, Insert(l, p, depth + 1, k), rt)
      else Node(q, d, l, Insert(rt, p, depth + 1, k))
  }

  /** Insertion adds exactly one occurrence of `p` and nothing else. */
  lemma {:induction false} InsertAddsPoint(t: Tree, p: Point, depth: nat, k: nat)
    requires k > 0 && |p| == k && Dims(t, k)
    ensures Points(Insert(t, p, depth, k)) == Points(t) + multiset{p}
    decreases t
  {
    match t
    case Nil =>
    case Node(q, d, l, rt) =>
      var a := Axis(depth, k);
      if p[a] < q[a] {
        InsertAddsPoint(l, p, depth + 1, k);
      } else {
        InsertAddsPoint(rt, p, depth + 1, k);
      }
  }

  /** A bound on axis `a` that holds of `t` and of `p` holds of `t` with `p` inserted. */
  lemma {:induction false} InsertBounds(t: Tree, p: Point, depth: nat, k: nat, a: nat, v: int)
    requires k > 0 && |p| == k && Dims(t, k) && a < k
    ensures Below(t, a, v) && p[a] < v ==> Below(Insert(t, p, depth, k), a, v)
    ensures AtLeast(t, a, v) && p[a] >= v ==> AtLeast(Insert(t, p, depth, k), a, v)
    decreases t
  {
    match t
    case Nil =>
    case Node(q, d, l, rt) =>
      InsertBounds(l, p, depth + 1, k, a, v);
      InsertBounds(rt, p, depth + 1, k, a, v);
  }

  /** Insertion keeps the partition invariant. */
  lemma {:induction false} InsertPartitioned(t: Tree, p: Point, depth: nat, k: nat)
    requires k > 0 && |p| == k && Dims(t, k) && Partitioned(t, depth, k)
    ensures Partitioned(Insert(t, p, depth, k), depth, k)
    decreases t
  {
    match t
    case Nil =>
    case Node(q, d, l, rt) =>
      var a := Axis(depth, k);
      if p[a] < q[a] {
        InsertPartitioned(l, p, depth + 1, k);
        InsertBounds(l, p, depth + 1, k, a, q[a]);
      } else {
        InsertPartitioned(rt, p, depth + 1, k);
        InsertBounds(rt, p, depth + 1, k, a, q[a]);
      }
  }

  /** The new node is created with the depth of the slot it fills, and no
      existing node changes level. */
  lemma {:induction false} InsertDepths(t: Tree, p: Point, depth: nat, k: nat)
    requires k > 0 && |p| == k && Dims(t, k) && DepthsFrom(t, depth)
    ensures DepthsFrom(Insert(t, p, depth, k), depth)
    decreases t
  {
    match t
    case Nil =>
    case Node(q, d, l, rt) =>
      var a := Axis(depth, k);
      if p[a] < q[a] {
        InsertDepths(l, p, depth + 1, k);
      } else {
        InsertDepths(rt, p, depth + 1, k);
      }
  }

  /** Insertion keeps the whole invariant. */
  lemma InsertKeepsInvariant(t: Tree, p: Point, depth: nat, k: nat)
    requires Invariant(t, depth, k) && |p| == k
    ensures Invariant(Insert(t, p, depth, k), depth, k)
    ensures Points(Insert(t, p, depth, k)) == Points(t) + multiset{p}
  {
    InsertPartitioned(t, p, depth, k);
    InsertDepths(t, p, depth, k);
    InsertAddsPoint(t, p, depth, k);
  }

  /** Inserting the points of `ps` one after another, from the root. */
  function InsertAll(t: Tree, ps: seq<Point>, k: nat): (r: Tree)
    requires k > 0 && Dims(t, k) && forall i | 0 <= i < |ps| :: |ps[i]| == k
    ensures Dims(r, k)
    decreases |ps|
  {
    if ps == [] then t else InsertAll(Insert(t, ps[0], 0, k), ps[1..], k)
  }

  /** A tree built by insertions keeps the invariant and stores exactly the
      inserted points, whatever their order. */
  lemma {:induction false} InsertAllStoresAll(t: Tree, ps: seq<Point>, k: nat)
    requires Invariant(t, 0, k) && forall i | 0 <= i < |ps| :: |ps[i]| == k
    ensures Invariant(InsertAll(t, ps, k), 0, k)
    ensures Points(InsertAll(t, ps, k)) == Points(t) + multiset(ps)
    decreases |ps|
  {
    if ps != [] {
      var t' := Insert(t, ps[0], 0, k);
      InsertKeepsInvariant(t, ps[0], 0, k);
      InsertAllStoresAll(t', ps[1..], k);
      FirstAndRest(ps, Points(t), Points(t'));
    }
  }

  /** The multiset step of one more insertion: the first point joins the
      stored points before the rest of the list. */
  lemma FirstAndRest(ps: seq<Point>, before: multiset<Point>, after: multiset<Point>)
    requires ps != [] && after == before + multiset{ps[0]}
    ensures after + multiset(ps[1..]) == before + multiset(ps)
  {
    assert ps == [ps[0]] + ps[1..];
  }
}
