/** The example data set of the repository: seven points inserted in order into
    a two-dimensional tree, and a nearest-neighbour query for (12, 16). */
module KdExample {
  import opened KdNodes
  import opened KdInsert
  import opened KdNearest

  /** The query point of the example. */
  const Query: Point := [12, 16]

  /** The example points, in insertion order. */
  function ExamplePoints(): (ps: seq<Point>)
    ensures |ps| == 7 && forall i | 0 <= i < |ps| :: |ps[i]| == 2
  {
    [[3, 6], [17, 15], [13, 15], [6, 12], [9, 1], [2, 7], [10, 19]]
  }

  /** (13, 15), at squared distance 2, is strictly closer to the query than
      every other example point. */
  lemma OnlyThirdIsClosest(i: nat)
    requires i < 7 && DistanceSq(Query, ExamplePoints()[i]) <= DistanceSq(Query, ExamplePoints()[2])
    ensures i == 2
  {
  }

  /** For a tree built by insertions, the answer is one of the inserted points,
      at index `i`, and no inserted point is closer. */
  lemma BuiltNearest(ps: seq<Point>, target: Point, k: nat) returns (i: nat)
    requires k > 0 && |target| == k && ps != [] && forall j | 0 <= j < |ps| :: |ps[j]| == k
    ensures i < |ps| && NearestNeighbor(InsertAll(Nil, ps, k), target, k) == Some(ps[i])
    ensures forall j | 0 <= j < |ps| :: DistanceSq(target, ps[i]) <= DistanceSq(target, ps[j])
  {
    InsertAllStoresAll(Nil, ps, k);
    var t := InsertAll(Nil, ps, k);
    assert ps[0] in multiset(ps);
    NearestNeighborCorrect(t, target, k);
    var r := NearestNeighbor(t, target, k).value;
    assert r in multiset(ps);
    i :| 0 <= i < |ps| && ps[i] == r;
    forall j | 0 <= j < |ps|
      ensures DistanceSq(target, ps[i]) <= DistanceSq(target, ps[j])
    {
      assert ps[j] in multiset(ps);
    }
  }

  /** Built by insertion, the example tree answers the query with (13, 15),
      as a scan of the example points does. */
  lemma ExampleNearest()
    ensures NearestNeighbor(InsertAll(Nil, ExamplePoints(), 2), Query, 2) == Some(ExamplePoints()[2])
  {
    var i := BuiltNearest(ExamplePoints(), Query, 2);
    OnlyThirdIsClosest(i);
  }
}
