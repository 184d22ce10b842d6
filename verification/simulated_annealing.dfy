/**
 * The best-tracking loop of `simulated_annealing`. The random starting
 * route, the random neighbour picked at each iteration, the float value of
 * the temperature at each iteration and the outcome of the randomised
 * acceptance test are parameters. The model looks at the temperature only to
 * tell whether the acceptance test divides by zero.
 */
module SimulatedAnnealing {
  import opened Outcomes
  import opened Tours
  import opened Neighbours

  /**
   * `random.choice(neighbors)` in `simulated_annealing`, with the random index
   * `pick` reduced modulo the number of neighbours, so every neighbour can be
   * drawn.
   */
  function Candidate(a: seq<int>, pick: nat): (c: seq<int>)
    requires |a| >= 2
    ensures |c| == |a| && IsPermutation(c, a)
  {
    PairsFacts(|a|);
    var m := Pairs(|a|)[pick % |Pairs(|a|)|];
    SwapMultiset(a, m.0, m.1);
    Swap(a, m.0, m.1)
  }

  /**
   * The current route after one iteration of `simulated_annealing` that does
   * not fail. A strictly cheaper candidate is taken without consulting the
   * random test, because `or` short-circuits; otherwise the test's outcome
   * `accept` decides.
   */
  function Next(g: Matrix, a: seq<int>, pick: nat, accept: bool): (b: seq<int>)
    requires IsSquare(g) && OnMatrix(g, a) && |a| >= 2
    ensures b == a || b == Candidate(a, pick)
    ensures IsPermutation(b, a) && OnMatrix(g, b)
  {
    var c := Candidate(a, pick);
    PermutationOnMatrix(g, c, a);
    if CycleCost(g, c) < CycleCost(g, a) || accept then c else a
  }

  /**
   * The random test of `simulated_annealing` divides the cost difference by
   * the temperature whenever the candidate is not strictly cheaper, and
   * Python raises `ZeroDivisionError` when the temperature is zero.
   */
  predicate Freezes(g: Matrix, a: seq<int>, pick: nat, temperature: real)
    requires IsSquare(g) && OnMatrix(g, a) && |a| >= 2
  {
    PermutationOnMatrix(g, Candidate(a, pick), a);
    temperature == 0.0 && CycleCost(g, Candidate(a, pick)) >= CycleCost(g, a)
  }

  /** A strictly cheaper candidate is always taken, whatever the random test says. */
  lemma BetterAccepted(g: Matrix, a: seq<int>, pick: nat, accept: bool)
    requires IsSquare(g) && OnMatrix(g, a) && |a| >= 2
    ensures OnMatrix(g, Candidate(a, pick))
    ensures CycleCost(g, Candidate(a, pick)) < CycleCost(g, a) ==> Next(g, a, pick, accept) == Candidate(a, pick)
    ensures !accept && Next(g, a, pick, accept) != a ==> CycleCost(g, Candidate(a, pick)) < CycleCost(g, a)
  {
    PermutationOnMatrix(g, Candidate(a, pick), a);
  }

  /**
   * The current routes of the first iterations: each is reached from the one
   * before by `Next`, and all are reorderings of the starting route.
   */
  predicate Trail(g: Matrix, initial: seq<int>, trail: seq<seq<int>>, picks: seq<nat>,
                 temperatures: seq<real>, accepts: seq<bool>)
    requires IsSquare(g)
  {
    && |trail| >= 1 && trail[0] == initial
    && |trail| <= |picks| + 1 && |trail| <= |temperatures| + 1 && |trail| <= |accepts| + 1
    && (|trail| > 1 ==> |initial| >= 2)
    && (forall u :: 0 <= u < |trail| ==>
      IsPermutation(trail[u], initial) && |trail[u]| == |initial| && OnMatrix(g, trail[u]))
    && forall u :: 0 <= u < |trail| - 1 ==> Moved(g, trail, picks, temperatures, accepts, u)
  }

  /** Iteration u did not fail and took the trail from entry u to entry u + 1. */
  predicate Moved(g: Matrix, trail: seq<seq<int>>, picks: seq<nat>, temperatures: seq<real>,
                  accepts: seq<bool>, u: nat)
    requires IsSquare(g)
  {
    && u + 1 < |trail| && u < |picks| && u < |temperatures| && u < |accepts|
    && OnMatrix(g, trail[u]) && |trail[u]| >= 2
    && !Freezes(g, trail[u], picks[u], temperatures[u])
    && trail[u + 1] == Next(g, trail[u], picks[u], accepts[u])
  }

  /** An iteration that does not fail extends the trail by its result. */
  lemma TrailSnoc(g: Matrix, initial: seq<int>, trail: seq<seq<int>>, picks: seq<nat>,
                  temperatures: seq<real>, accepts: seq<bool>)
    requires IsSquare(g) && Trail(g, initial, trail, picks, temperatures, accepts)
    requires |trail| <= |picks| && |trail| <= |temperatures| && |trail| <= |accepts| && |initial| >= 2
    requires var t := |trail| - 1; !Freezes(g, trail[t], picks[t], temperatures[t])
    ensures var t := |trail| - 1;
      Trail(g, initial, trail + [Next(g, trail[t], picks[t], accepts[t])], picks, temperatures, accepts)
  {
    var t := |trail| - 1;
    var b := Next(g, trail[t], picks[t], accepts[t]);
    var trail' := trail + [b];
    forall u | 0 <= u < |trail'|
      ensures IsPermutation(trail'[u], initial) && |trail'[u]| == |initial| && OnMatrix(g, trail'[u])
    {
      if u < |trail| {
        assert trail'[u] == trail[u];
      }
    }
    forall u | 0 <= u < |trail'| - 1
      ensures Moved(g, trail', picks, temperatures, accepts, u)
    {
      assert trail'[u] == trail[u];
      if u < t {
        assert Moved(g, trail, picks, temperatures, accepts, u);
      }
    }
  }

  /**
   * Entry `at` of the trail is the first of least cost, and `cost` is its
   * `calculate_cost`.
   */
  predicate Leads(g: Matrix, trail: seq<seq<int>>, at: nat, cost: int)
    requires IsSquare(g)
  {
    && at < |trail|
    && (forall u :: 0 <= u < |trail| ==> OnMatrix(g, trail[u]))
    && cost == CycleCost(g, trail[at])
    && (forall u :: 0 <= u < |trail| ==> cost <= CycleCost(g, trail[u]))
    && (forall u :: 0 <= u < at ==> cost < CycleCost(g, trail[u]))
  }

  /**
   * `simulated_annealing` moves the best route to a newly reached route
   * exactly when it is strictly cheaper, which keeps the first cheapest in
   * the lead.
   */
  lemma LeadsSnoc(g: Matrix, trail: seq<seq<int>>, at: nat, cost: int, x: seq<int>)
    requires IsSquare(g) && Leads(g, trail, at, cost) && OnMatrix(g, x)
    ensures CycleCost(g, x) < cost ==> Leads(g, trail + [x], |trail|, CycleCost(g, x))
    ensures CycleCost(g, x) >= cost ==> Leads(g, trail + [x], at, cost)
  {
    var trail' := trail + [x];
    assert forall u :: 0 <= u < |trail| ==> trail'[u] == trail[u];
    assert trail'[|trail|] == x;
  }

  /**
   * One iteration of the loop of `simulated_annealing`: draw a swap neighbour
   * of the current route and move to it when it is strictly cheaper or the
   * random test accepts. `random.choice` of the empty list, for fewer than
   * two cities, fails; so does the test's division when the temperature is
   * zero.
   */
  method Iterate(g: Matrix, current: seq<int>, distance: int, pick: nat, temperature: real, accept: bool)
    returns (r: Result<Tour>)
    requires IsSquare(g) && OnMatrix(g, current) && distance == CycleCost(g, current)
    ensures r.Err? <==> |current| < 2 || Freezes(g, current, pick, temperature)
    ensures r.Err? ==> r.error == if |current| < 2 then IndexError else ZeroDivisionError
    ensures r.Ok? ==>
      && r.value.route == Next(g, current, pick, accept)
      && r.value.cost == CycleCost(g, r.value.route)
  {
    var neighbors := GetNeighbors(current);
    if |neighbors| == 0 {
      // `random.choice` of an empty list
      return Err(IndexError);
    }
    var next := neighbors[pick % |neighbors|];
    assert next == Candidate(current, pick);
    BetterAccepted(g, current, pick, accept);
    var nextDistance := CalculateCost(g, next);
    if nextDistance < distance {
      return Ok(Tour(next, nextDistance));
    }
    if temperature == 0.0 {
      // `(current_distance - next_distance) / temperature`
      return Err(ZeroDivisionError);
    }
    if accept {
      return Ok(Tour(next, nextDistance));
    }
    return Ok(Tour(current, distance));
  }

  /**
   * `simulated_annealing(cities, graph, initial_temp, cooling_rate,
   * max_iterations)` from the starting route `initial`, where iteration t draws
   * neighbour `picks[t]`, `temperature` holds `temperatures[t]` (the float
   * value of `initial_temp` times `cooling_rate` t times) and the random
   * acceptance test comes out `accepts[t]`. The ghost `trail` holds the
   * current route before the first and after every iteration that does not
   * fail; `at` is the iteration whose route is returned.
   */
  method Anneal(g: Matrix, initial: seq<int>, maxIterations: nat, picks: seq<nat>,
                temperatures: seq<real>, accepts: seq<bool>)
    returns (r: Result<Tour>, ghost trail: seq<seq<int>>, ghost at: nat)
    requires IsSquare(g) && OnMatrix(g, initial)
    requires |picks| >= maxIterations && |temperatures| >= maxIterations && |accepts| >= maxIterations
    ensures r == Err(IndexError) <==> |initial| < 2 && maxIterations > 0
    ensures r.Err? ==> r.error == IndexError || r.error == ZeroDivisionError
    ensures r == Err(ZeroDivisionError) ==>
      && 1 <= |trail| <= maxIterations
      && Trail(g, initial, trail, picks, temperatures, accepts)
      && |initial| >= 2
      && Freezes(g, trail[|trail| - 1], picks[|trail| - 1], temperatures[|trail| - 1])
    ensures r.Ok? ==>
      && |trail| == maxIterations + 1
      && Trail(g, initial, trail, picks, temperatures, accepts)
    ensures r.Ok? ==>
      && at < |trail|
      && r.value.route == trail[at]
      && IsPermutation(r.value.route, initial)
      && r.value.cost == CycleCost(g, r.value.route)
      && r.value.cost <= CycleCost(g, initial)
      && (forall u :: 0 <= u < |trail| ==> r.value.cost <= CycleCost(g, trail[u]))
      && (forall u :: 0 <= u < at ==> r.value.cost < CycleCost(g, trail[u]))
  {
    var current := initial;
    var distance := CalculateCost(g, current);
    var best := current;
    var bestDistance := distance;
    trail, at := [current], 0;
    for t := 0 to maxIterations
      invariant |trail| == t + 1 && trail[t] == current
      invariant Trail(g, initial, trail, picks, temperatures, accepts)
      invariant distance == CycleCost(g, current)
      invariant Leads(g, trail, at, bestDistance) && best == trail[at]
    {
      var step := Iterate(g, current, distance, picks[t], temperatures[t], accepts[t]);
      if step.Err? {
        r := Err(step.error);
        return;
      }
      TrailSnoc(g, initial, trail, picks, temperatures, accepts);
      current, distance := step.value.route, step.value.cost;
      LeadsSnoc(g, trail, at, bestDistance, current);
      if distance < bestDistance {
        best, bestDistance := current, distance;
        at := t + 1;
      }
      trail := trail + [current];
    }
    r := Ok(Tour(best, bestDistance));
  }
}
