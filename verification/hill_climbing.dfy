/**
 * `hill_climbing`: from a starting route, repeatedly move to the cheapest
 * swap neighbour while it is strictly cheaper than the current route. The
 * random starting route is a parameter.
 */
module HillClimbing {
  import opened Outcomes
  import opened Tours
  import opened Neighbours

  /** `calculate_cost` of the route with positions i and j exchanged. */
  function SwapCost(g: Matrix, r: seq<int>, i: nat, j: nat): int
    requires IsSquare(g) && OnMatrix(g, r) && i < |r| && j < |r|
  {
    SwapPermutation(g, r, i, j);
    CycleCost(g, Swap(r, i, j))
  }

  /** No single swap makes the route strictly cheaper. */
  predicate LocalOptimum(g: Matrix, r: seq<int>)
    requires IsSquare(g) && OnMatrix(g, r)
  {
    forall i: nat, j: nat :: i < j < |r| ==> CycleCost(g, r) <= SwapCost(g, r, i, j)
  }

  /**
   * The swap (i, j) is the one `min` picks from the neighbour list: no swap is
   * cheaper, and every swap earlier in loop order is strictly dearer.
   */
  predicate FirstCheapestSwap(g: Matrix, r: seq<int>, m: Move)
    requires IsSquare(g) && OnMatrix(g, r)
  {
    && m.0 < m.1 < |r|
    && (forall a: nat, b: nat :: a < b < |r| ==> SwapCost(g, r, m.0, m.1) <= SwapCost(g, r, a, b))
    && (forall a: nat, b: nat :: a < b < |r| && Earlier((a, b), m) ==> SwapCost(g, r, m.0, m.1) < SwapCost(g, r, a, b))
  }

  /**
   * The routes the climb passes through: it starts at `initial`, and each
   * route is the first cheapest swap of the one before, strictly cheaper.
   */
  predicate Descent(g: Matrix, initial: seq<int>, trace: seq<seq<int>>, moves: seq<Move>)
    requires IsSquare(g)
  {
    && |trace| == |moves| + 1
    && trace[0] == initial
    && (forall t :: 0 <= t < |trace| ==> OnMatrix(g, trace[t]) && |trace[t]| == |initial|)
    && forall t :: 0 <= t < |moves| ==>
      && FirstCheapestSwap(g, trace[t], moves[t])
      && trace[t + 1] == Swap(trace[t], moves[t].0, moves[t].1)
      && CycleCost(g, trace[t + 1]) < CycleCost(g, trace[t])
  }

  /**
   * `min(neighbors, key=calculate_cost)`: the position of the first route of
   * least cost, since `min` only replaces its candidate on a strictly smaller key.
   */
  function FirstLowest(g: Matrix, rs: seq<seq<int>>): (k: nat)
    requires IsSquare(g) && |rs| > 0
    requires forall t :: 0 <= t < |rs| ==> OnMatrix(g, rs[t])
    ensures k < |rs|
    ensures forall t :: 0 <= t < |rs| ==> CycleCost(g, rs[k]) <= CycleCost(g, rs[t])
    ensures forall t :: 0 <= t < k ==> CycleCost(g, rs[k]) < CycleCost(g, rs[t])
    decreases |rs|
  {
    if |rs| == 1 then 0
    else
      var k := FirstLowest(g, rs[..|rs| - 1]);
      if CycleCost(g, rs[|rs| - 1]) < CycleCost(g, rs[k]) then |rs| - 1 else k
  }

  /** A lower bound on every entry of a row; 0 for an empty row. */
  function RowFloor(row: seq<int>): (m: int)
    ensures forall j :: 0 <= j < |row| ==> m <= row[j]
    decreases |row|
  {
    if |row| == 0 then 0
    else
      var m := RowFloor(row[..|row| - 1]);
      if row[|row| - 1] < m then row[|row| - 1] else m
  }

  /** A lower bound on every entry of the matrix. */
  function Floor(g: Matrix): (m: int)
    ensures forall i, j :: 0 <= i < |g| && 0 <= j < |g[i]| ==> m <= g[i][j]
    decreases |g|
  {
    if |g| == 0 then 0
    else
      var m := Floor(g[..|g| - 1]);
      var last := RowFloor(g[|g| - 1]);
      assert forall i :: 0 <= i < |g| - 1 ==> g[..|g| - 1][i] == g[i];
      if last < m then last else m
  }

  /** A route of n cities costs at least n times the smallest matrix entry. */
  lemma {:induction false} CycleCostFloor(g: Matrix, r: seq<int>, k: nat)
    requires IsSquare(g) && OnMatrix(g, r) && k <= |r|
    ensures WrapSum(g, r, k) >= k * Floor(g)
  {
    if k > 0 {
      var f := Floor(g);
      CycleCostFloor(g, r, k - 1);
      assert g[r[k - 1]][r[if k == |r| then 0 else k]] >= f;
      assert k * f == (k - 1) * f + f;
    }
  }

  /**
   * The neighbour `min` returns is the first cheapest swap, and no swap is
   * cheaper than it.
   */
  lemma Choice(g: Matrix, route: seq<int>, neighbors: seq<seq<int>>, k: nat)
    requires IsSquare(g) && OnMatrix(g, route)
    requires |neighbors| == |Pairs(|route|)|
    requires forall t :: 0 <= t < |neighbors| ==>
      && Pairs(|route|)[t].0 < Pairs(|route|)[t].1 < |route|
      && neighbors[t] == Swap(route, Pairs(|route|)[t].0, Pairs(|route|)[t].1)
    requires forall t :: 0 <= t < |neighbors| ==> OnMatrix(g, neighbors[t])
    requires |neighbors| > 0 && k == FirstLowest(g, neighbors)
    ensures FirstCheapestSwap(g, route, Pairs(|route|)[k])
  {
    var n := |route|;
    var ps := Pairs(n);
    PairsFacts(n);
    var m := ps[k];
    forall a: nat, b: nat | a < b < n
      ensures SwapCost(g, route, m.0, m.1) <= SwapCost(g, route, a, b)
      ensures Earlier((a, b), m) ==> SwapCost(g, route, m.0, m.1) < SwapCost(g, route, a, b)
    {
      assert (a, b) in ps;
      var t :| 0 <= t < |ps| && ps[t] == (a, b);
      if Earlier((a, b), m) {
        PairsPosition(n, t, k);
      }
    }
  }

  /**
   * One pass of `hill_climbing`'s loop: list the swap neighbours and take the
   * first cheapest; `min` of the empty list, for fewer than two cities, fails.
   */
  method Cheapest(g: Matrix, route: seq<int>) returns (res: Result<Move>)
    requires IsSquare(g) && OnMatrix(g, route)
    ensures res.Err? <==> |route| < 2
    ensures res.Err? ==> res.error == ValueError
    ensures res.Ok? ==>
      && FirstCheapestSwap(g, route, res.value)
      && IsPermutation(Swap(route, res.value.0, res.value.1), route)
      && OnMatrix(g, Swap(route, res.value.0, res.value.1))
  {
    var neighbors := GetNeighbors(route);
    if |neighbors| == 0 {
      // `min` of an empty sequence
      return Err(ValueError);
    }
    forall t | 0 <= t < |neighbors|
      ensures OnMatrix(g, neighbors[t])
    {
      SwapPermutation(g, route, Pairs(|route|)[t].0, Pairs(|route|)[t].1);
    }
    var k := FirstLowest(g, neighbors);
    Choice(g, route, neighbors, k);
    var m := Pairs(|route|)[k];
    SwapPermutation(g, route, m.0, m.1);
    return Ok(m);
  }

  /** The stopping test of `hill_climbing`: when even the cheapest swap is no cheaper, no swap is. */
  lemma Settled(g: Matrix, route: seq<int>, m: Move)
    requires IsSquare(g) && OnMatrix(g, route)
    requires FirstCheapestSwap(g, route, m)
    requires SwapCost(g, route, m.0, m.1) >= CycleCost(g, route)
    ensures LocalOptimum(g, route)
  {
  }

  /** One more strictly cheaper first-cheapest swap extends the descent. */
  lemma DescentSnoc(g: Matrix, initial: seq<int>, trace: seq<seq<int>>, moves: seq<Move>, m: Move)
    requires IsSquare(g) && Descent(g, initial, trace, moves)
    requires FirstCheapestSwap(g, trace[|trace| - 1], m)
    requires OnMatrix(g, Swap(trace[|trace| - 1], m.0, m.1))
    requires CycleCost(g, Swap(trace[|trace| - 1], m.0, m.1)) < CycleCost(g, trace[|trace| - 1])
    ensures Descent(g, initial, trace + [Swap(trace[|trace| - 1], m.0, m.1)], moves + [m])
  {
    var last := trace[|trace| - 1];
    var trace', moves' := trace + [Swap(last, m.0, m.1)], moves + [m];
    forall t | 0 <= t < |trace'|
      ensures OnMatrix(g, trace'[t]) && |trace'[t]| == |initial|
    {
      if t < |trace| {
        assert trace'[t] == trace[t];
      }
    }
    forall t | 0 <= t < |moves'|
      ensures FirstCheapestSwap(g, trace'[t], moves'[t])
      ensures trace'[t + 1] == Swap(trace'[t], moves'[t].0, moves'[t].1)
      ensures CycleCost(g, trace'[t + 1]) < CycleCost(g, trace'[t])
    {
      if t < |moves| {
        assert trace'[t] == trace[t] && trace'[t + 1] == trace[t + 1] && moves'[t] == moves[t];
      } else {
        assert trace'[t] == last && moves'[t] == m;
      }
    }
  }

  /**
   * `hill_climbing(cities, graph)` from the starting route `initial`. The
   * ghost `trace` lists the routes the climb passes through and `moves` the
   * swap taken at each step.
   */
  method Climb(g: Matrix, initial: seq<int>) returns (r: Result<Tour>, ghost trace: seq<seq<int>>, ghost moves: seq<Move>)
    requires IsSquare(g) && OnMatrix(g, initial)
    ensures |initial| < 2 <==> r == Err(ValueError)
    ensures r.Ok? ==>
      && IsPermutation(r.value.route, initial)
      && OnMatrix(g, r.value.route)
      && r.value.cost == CycleCost(g, r.value.route)
      && r.value.cost <= CycleCost(g, initial)
      && LocalOptimum(g, r.value.route)
    ensures r.Ok? ==> Descent(g, initial, trace, moves) && trace[|trace| - 1] == r.value.route
  {
    var route := initial;
    var distance := CalculateCost(g, route);
    trace, moves := [route], [];
    while true
      invariant IsPermutation(route, initial) && OnMatrix(g, route) && |route| == |initial|
      invariant distance == CycleCost(g, route) && distance <= CycleCost(g, initial)
      invariant Descent(g, initial, trace, moves) && trace[|trace| - 1] == route
      decreases distance - |initial| * Floor(g)
    {
      CycleCostFloor(g, route, |route|);
      var choice := Cheapest(g, route);
      if choice.Err? {
        r := Err(ValueError);
        return;
      }
      var m := choice.value;
      var next := route[m.0 := route[m.1]][m.1 := route[m.0]];
      var nextDistance := CalculateCost(g, next);
      if nextDistance >= distance {
        Settled(g, route, m);
        break;
      }
      DescentSnoc(g, initial, trace, moves, m);
      route, distance := next, nextDistance;
      trace, moves := trace + [next], moves + [m];
    }
    r := Ok(Tour(route, distance));
  }
}
