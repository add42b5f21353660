/** Minimum search (backend/app.py, KDTree.find_min): the stored point that is
    lowest on a given dimension, pruning the right side of nodes that split on
    that very dimension. */
module KdFindMin {
  import opened KdNodes

  /** find_min's candidate loop: starting from `best`, each present candidate
      that is strictly lower on dimension `d` replaces the current choice, so on
      ties the earlier choice stays. */
  function MinOver(best: Point, cands: seq<Option<Point>>, d: nat): (r: Point)
    requires d < |best|
    requires forall i | 0 <= i < |cands| && cands[i].Some? :: d < |cands[i].value|
    ensures r == best || Some(r) in cands
    ensures r[d] <= best[d]
    ensures forall i | 0 <= i < |cands| && cands[i].Some? :: r[d] <= cands[i].value[d]
    ensures (forall i | 0 <= i < |cands| && cands[i].Some? :: best[d] <= cands[i].value[d]) ==> r == best
    decreases |cands|
  {
    if cands == [] then best
    else
      var next := if cands[0].Some? && cands[0].value[d] < best[d] then cands[0].value else best;
      MinOver(next, cands[1..], d)
  }

  /** Ties keep the earlier choice: when the scan does not end on `best`, it ends
      on a candidate strictly lower than `best` and than every present candidate
      before it. */
  lemma {:induction false} MinOverKeepsFirst(best: Point, cands: seq<Option<Point>>, d: nat)
    requires d < |best|
    requires forall i | 0 <= i < |cands| && cands[i].Some? :: d < |cands[i].value|
    ensures var r := MinOver(best, cands, d);
      r != best ==> r[d] < best[d] && exists i | 0 <= i < |cands| ::
        cands[i] == Some(r) && forall j | 0 <= j < i && cands[j].Some? :: r[d] < cands[j].value[d]
    decreases |cands|
  {
    if cands != [] {
      var next := if cands[0].Some? && cands[0].value[d] < best[d] then cands[0].value else best;
      var r := MinOver(best, cands, d);
      MinOverKeepsFirst(next, cands[1..], d);
      if r != best && r != next {
        var i :| 0 <= i < |cands[1..]| && cands[1..][i] == Some(r) &&
          forall j | 0 <= j < i && cands[1..][j].Some? :: r[d] < cands[1..][j].value[d];
        assert cands[i + 1] == Some(r);
      } else if r != best {
        assert cands[0] == Some(r);
      }
    }
  }

  /** The point of the lowest node on dimension `d` in a subtree rooted at `depth`,
      or None for the empty subtree. */
  function FindMin(t: Tree, d: nat, depth: nat, k: nat): (r: Option<Point>)
    requires k > 0 && d < k && Dims(t, k)
    ensures r.None? <==> t.Nil?
    ensures r.Some? ==> |r.value| == k
    decreases t
  {
    match t
    case Nil => None
    case Node(p, _, l, rt) =>
      if Axis(depth, k) == d then
        if l.Nil? then Some(p) else FindMin(l, d, depth + 1, k)
      else
        Some(MinOver(p, [FindMin(l, d, depth + 1, k), FindMin(rt, d, depth + 1, k)], d))
  }

  /** The point found is stored in the subtree. */
  lemma {:induction false} FindMinStored(t: Tree, d: nat, depth: nat, k: nat)
    requires k > 0 && d < k && Dims(t, k) && t.Node?
    ensures FindMin(t, d, depth, k).value in Points(t)
    decreases t
  {
    var Node(p, _, l, rt) := t;
    if Axis(depth, k) == d {
      if l.Node? {
        FindMinStored(l, d, depth + 1, k);
      }
    } else {
      var lm, rm := FindMin(l, d, depth + 1, k), FindMin(rt, d, depth + 1, k);
      var m := MinOver(p, [lm, rm], d);
      assert FindMin(t, d, depth, k) == Some(m);
      if m != p {
        assert Some(m) == lm || Some(m) == rm;
        if Some(m) == lm {
          FindMinStored(l, d, depth + 1, k);
        } else {
          FindMinStored(rt, d, depth + 1, k);
        }
      }
    }
  }

  /** Given the partition invariant, no stored point is lower on dimension `d`
      than the point found. */
  lemma {:induction false} FindMinIsLowest(t: Tree, d: nat, depth: nat, k: nat)
    requires k > 0 && d < k && Dims(t, k) && Partitioned(t, depth, k) && t.Node?
    ensures AtLeast(t, d, FindMin(t, d, depth, k).value[d])
    decreases t
  {
    var Node(p, _, l, rt) := t;
    var m := FindMin(t, d, depth, k).value;
    if Axis(depth, k) == d {
      if l.Node? {
        assert m == FindMin(l, d, depth + 1, k).value;
        FindMinIsLowest(l, d, depth + 1, k);
        FindMinStored(l, d, depth + 1, k);
        BelowMembers(l, d, p[d]);
        assert m[d] < p[d];
      } else {
        assert m == p;
      }
      BoundsWeaken(rt, d, p[d], m[d]);
    } else {
      var lm, rm := FindMin(l, d, depth + 1, k), FindMin(rt, d, depth + 1, k);
      var cands := [lm, rm];
      assert m == MinOver(p, cands, d);
      assert cands[0] == lm && cands[1] == rm;
      if l.Node? {
        assert m[d] <= lm.value[d];
        FindMinIsLowest(l, d, depth + 1, k);
        BoundsWeaken(l, d, lm.value[d], m[d]);
      }
      if rt.Node? {
        assert m[d] <= rm.value[d];
        FindMinIsLowest(rt, d, depth + 1, k);
        BoundsWeaken(rt, d, rm.value[d], m[d]);
      }
    }
  }

  /** find_min returns None exactly for the empty subtree, and otherwise a stored
      point that no stored point undercuts on dimension `d`. */
  lemma FindMinCorrect(t: Tree, d: nat, depth: nat, k: nat)
    requires k > 0 && d < k && Dims(t, k) && Partitioned(t, depth, k)
    ensures FindMin(t, d, depth, k).None? <==> t.Nil?
    ensures t.Node? ==> FindMin(t, d, depth, k).value in Points(t)
    ensures t.Node? ==> forall q | q in Points(t) :: d < |q| && FindMin(t, d, depth, k).value[d] <= q[d]
  {
    if t.Node? {
      var m := FindMin(t, d, depth, k).value;
      FindMinStored(t, d, depth, k);
      FindMinIsLowest(t, d, depth, k);
      AtLeastMembers(t, d, m[d]);
    }
  }
}
