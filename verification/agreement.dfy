/**
 * The two exact solvers over the same matrix, with the cities labelled by
 * their own indices: they report the same optimal cost once there are at
 * least two cities.
 */
module Agreement {
  import opened Outcomes
  import opened Tours
  import HeldKarp
  import BruteForce

  method BothExact(d: Matrix) returns (dynamic: Result<HeldKarp.Solution<int>>, exhaustive: Tour)
    requires IsSquare(d)
    ensures |d| >= 2 ==> dynamic.Ok? && dynamic.value.minCost == Fin(exhaustive.cost)
    ensures |d| == 1 ==> dynamic.Ok? && dynamic.value.minCost == Inf && exhaustive.cost == d[0][0]
  {
    var n := |d|;
    RangeFacts(n);
    assert OnMatrix(d, Range(n));
    ghost var order, at;
    dynamic, order := HeldKarp.Solve(d, Range(n));
    exhaustive, at := BruteForce.Search(d, Range(n));
    if n >= 2 {
      ghost var t := order[..n];
      assert |t| == n && IsPermutation(t, Range(n)) && dynamic.value.minCost == Fin(CycleCost(d, t));
      assert |exhaustive.route| == |multiset(exhaustive.route)| == n;
      PermutationOnMatrix(d, t, Range(n));
      assert exhaustive.cost <= CycleCost(d, t);
      assert dynamic.value.minCost.AtMost(Fin(CycleCost(d, exhaustive.route)));
    } else if n == 1 {
      OneCityTour(d, exhaustive.route);
    }
  }

  /** The only ordering of a single city costs its self-loop. */
  lemma OneCityTour(d: Matrix, r: seq<int>)
    requires IsSquare(d) && |d| == 1 && IsPermutation(r, Range(1))
    ensures OnMatrix(d, r) && CycleCost(d, r) == d[0][0]
  {
    assert Range(1) == [0];
    assert |r| == |multiset(r)| == 1;
    assert r[0] in multiset(Range(1));
    assert r == [0];
    assert CycleCost(d, [0]) == WrapSum(d, [0], 0) + d[0][0];
  }
}
