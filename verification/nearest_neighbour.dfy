/**
 * `tsp_nearest_neighbour`: from the first city, repeatedly move to the
 * cheapest unvisited city, then return to the start. Python's `min` over a
 * set breaks ties by the set's iteration order, which the model leaves open:
 * any cheapest city may be taken.
 */
module NearestNeighbour {
  import opened Outcomes
  import opened Tours

  /**
   * Every city appended after the start was a cheapest move from the city
   * before it, among the cities not yet on the path.
   */
  predicate Greedy(g: Matrix, cities: seq<int>, path: seq<int>)
    requires IsSquare(g) && OnMatrix(g, path) && OnMatrix(g, cities)
  {
    forall k, c :: 1 <= k < |path| && c in cities && c !in path[..k] ==> g[path[k - 1]][path[k]] <= g[path[k - 1]][c]
  }

  /** `m` is a city of `s` that no city of `s` is cheaper to reach than, from `from`. */
  predicate Nearest(g: Matrix, from: int, s: set<int>, m: int)
    requires IsSquare(g) && 0 <= from < |g|
  {
    && m in s
    && 0 <= m < |g|
    && forall c :: c in s && 0 <= c < |g| ==> g[from][m] <= g[from][c]
  }

  /** A finite non-empty set of cities has a cheapest one to reach from `from`. */
  lemma {:induction false} Cheapest(g: Matrix, from: int, s: set<int>) returns (m: int)
    requires IsSquare(g) && 0 <= from < |g| && s != {} && forall c :: c in s ==> 0 <= c < |g|
    ensures Nearest(g, from, s, m)
    decreases |s|
  {
    var x := Pick(s);
    if forall c :: c in s ==> c == x {
      m := x;
    } else {
      var y :| y in s && y != x;
      assert y in s - {x};
      m := Cheapest(g, from, s - {x});
      if g[from][x] < g[from][m] {
        m := x;
      }
    }
  }

  /** Some element of a non-empty set. */
  lemma Pick(s: set<int>) returns (x: int)
    requires s != {}
    ensures x in s
  {
    if forall y :: y !in s {
      assert false;
    }
    x :| x in s;
  }

  method Tour(g: Matrix, cities: seq<int>) returns (r: Result<Outcomes.Tour>)
    requires IsSquare(g) && OnMatrix(g, cities)
    ensures |cities| == 0 <==> r == Err(IndexError)
    ensures r.Ok? ==>
      var path := r.value.route;
      && |path| == |Elements(cities)| + 1
      && path[0] == cities[0] && path[|path| - 1] == cities[0]
      && OnMatrix(g, path)
      && Distinct(path[..|path| - 1])
      && Elements(path[..|path| - 1]) == Elements(cities)
      && (Distinct(cities) ==> IsPermutation(path[..|path| - 1], cities))
      && r.value.cost == PathCost(g, path)
      && r.value.cost == CycleCost(g, path[..|path| - 1])
      && Greedy(g, cities, path[..|path| - 1])
    ensures |cities| >= 1 && Elements(cities) == {cities[0]} ==>
      r == Ok(Outcomes.Tour([cities[0], cities[0]], g[cities[0]][cities[0]]))
  {
    if |cities| == 0 {
      // `cities[0]`
      return Err(IndexError);
    }
    var start := cities[0];
    var path, totalCost := Visit(g, cities);
    totalCost := totalCost + g[path[|path| - 1]][start];
    Finish(g, cities, path);
    if Elements(cities) == {start} {
      assert path + [start] == [start, start];
    }
    return Ok(Outcomes.Tour(path + [start], totalCost));
  }

  /**
   * The loop of `tsp_nearest_neighbour`: the greedy walk from the first city
   * until no city is left unvisited; the path covers every city once and `total_cost` is its edge sum.
   */
  method Visit(g: Matrix, cities: seq<int>) returns (path: seq<int>, totalCost: int)
    requires IsSquare(g) && OnMatrix(g, cities) && |cities| >= 1
    ensures |path| >= 1 && path[0] == cities[0]
    ensures OnMatrix(g, path) && Distinct(path)
    ensures Elements(path) == Elements(cities)
    ensures totalCost == PathCost(g, path)
    ensures Greedy(g, cities, path)
  {
    var start := cities[0];
    var unvisited := Elements(cities) - {start};
    var current := start;
    path := [start];
    totalCost := 0;
    Begin(g, cities);
    while unvisited != {}
      invariant |path| >= 1 && path[0] == start && current == path[|path| - 1]
      invariant Progress(g, cities, path, unvisited, totalCost)
      decreases |unvisited|
    {
      path, unvisited, totalCost := Step(g, cities, path, unvisited, totalCost);
      current := path[|path| - 1];
    }
  }

  /**
   * One pass of the loop of `tsp_nearest_neighbour`: move to a cheapest
   * unvisited city, adding the edge into it. Which of several equally cheap cities is taken
   * is left open.
   */
  method Step(g: Matrix, cities: seq<int>, path: seq<int>, unvisited: set<int>, totalCost: int)
    returns (path': seq<int>, unvisited': set<int>, totalCost': int)
    requires IsSquare(g) && OnMatrix(g, cities) && |path| >= 1
    requires Progress(g, cities, path, unvisited, totalCost) && unvisited != {}
    ensures |path'| == |path| + 1 && path'[..|path|] == path
    ensures Nearest(g, path[|path| - 1], unvisited, path'[|path|])
    ensures unvisited' == unvisited - {path'[|path|]}
    ensures totalCost' == totalCost + g[path[|path| - 1]][path'[|path|]]
    ensures |unvisited'| < |unvisited|
    ensures Progress(g, cities, path', unvisited', totalCost')
  {
    var current := path[|path| - 1];
    ghost var cheapest := Cheapest(g, current, unvisited);
    assert exists m :: Nearest(g, current, unvisited, m);
    var nearest :| Nearest(g, current, unvisited, nearest);
    Advance(g, cities, path, unvisited, totalCost, nearest);
    totalCost' := totalCost + g[current][nearest];
    path' := path + [nearest];
    unvisited' := unvisited - {nearest};
    assert path'[..|path|] == path;
  }

  /** The end of `tsp_nearest_neighbour`: once every city is on the path, the edge home closes the tour. */
  lemma Finish(g: Matrix, cities: seq<int>, path: seq<int>)
    requires IsSquare(g) && OnMatrix(g, cities) && |cities| >= 1
    requires |path| >= 1 && path[0] == cities[0] && OnMatrix(g, path) && Distinct(path)
    requires Elements(path) == Elements(cities)
    ensures var route := path + [cities[0]];
      && |route| == |Elements(cities)| + 1
      && route[..|route| - 1] == path
      && OnMatrix(g, route)
      && PathCost(g, route) == PathCost(g, path) + g[path[|path| - 1]][cities[0]]
      && CycleCost(g, path) == PathCost(g, route)
      && (Distinct(cities) ==> IsPermutation(path, cities))
  {
    var route := path + [cities[0]];
    PathCostSnoc(g, path, cities[0]);
    assert route[..|route| - 1] == path;
    CycleCostCloses(g, path);
    DistinctCard(path);
    if Distinct(cities) {
      forall x
        ensures x in path <==> x in cities
      {
        assert x in path <==> x in Elements(path);
        assert x in cities <==> x in Elements(cities);
      }
      SameElementsPermutation(path, cities);
    }
  }

  /**
   * The loop's state: a repeat-free greedy path of cities from the list,
   * `unvisited_cities` the rest of them, and `total_cost` the path's edge sum.
   */
  predicate Progress(g: Matrix, cities: seq<int>, path: seq<int>, unvisited: set<int>, totalCost: int)
    requires IsSquare(g) && OnMatrix(g, cities)
  {
    && OnMatrix(g, path) && Distinct(path)
    && Elements(path) <= Elements(cities)
    && unvisited == Elements(cities) - Elements(path)
    && totalCost == PathCost(g, path)
    && Greedy(g, cities, path)
  }

  /**
   * `tsp_nearest_neighbour` before its loop: the path holds the start city
   * alone and every other city is unvisited.
   */
  lemma Begin(g: Matrix, cities: seq<int>)
    requires IsSquare(g) && OnMatrix(g, cities) && |cities| >= 1
    ensures Progress(g, cities, [cities[0]], Elements(cities) - {cities[0]}, 0)
  {
    assert Elements([cities[0]]) == {cities[0]};
  }

  /** A pass of `tsp_nearest_neighbour`'s loop: moving to a cheapest unvisited city keeps its state. */
  lemma Advance(g: Matrix, cities: seq<int>, path: seq<int>, unvisited: set<int>, totalCost: int, nearest: int)
    requires IsSquare(g) && OnMatrix(g, cities) && |path| >= 1
    requires Progress(g, cities, path, unvisited, totalCost)
    requires Nearest(g, path[|path| - 1], unvisited, nearest)
    ensures Progress(g, cities, path + [nearest], unvisited - {nearest}, totalCost + g[path[|path| - 1]][nearest])
  {
    assert nearest in cities && 0 <= nearest < |g|;
    PathCostSnoc(g, path, nearest);
    Append(g, cities, path, nearest);
  }

  /** Appending a cheapest unvisited city keeps the path repeat-free and greedy. */
  lemma Append(g: Matrix, cities: seq<int>, path: seq<int>, nearest: int)
    requires IsSquare(g) && OnMatrix(g, cities) && OnMatrix(g, path) && |path| >= 1 && Distinct(path)
    requires Greedy(g, cities, path)
    requires nearest in cities && nearest !in path
    requires forall c :: c in Elements(cities) - Elements(path) ==> g[path[|path| - 1]][nearest] <= g[path[|path| - 1]][c]
    ensures OnMatrix(g, path + [nearest]) && Distinct(path + [nearest])
    ensures Elements(path + [nearest]) == Elements(path) + {nearest}
    ensures Greedy(g, cities, path + [nearest])
  {
    var t := path + [nearest];
    assert t[..|path|] == path;
    forall k, c | 1 <= k < |t| && c in cities && c !in t[..k]
      ensures g[t[k - 1]][t[k]] <= g[t[k - 1]][c]
    {
      if k < |path| {
        assert t[..k] == path[..k];
      } else {
        assert c in Elements(cities) - Elements(path);
      }
    }
  }

  /** A repeat-free sequence has as many entries as elements. */
  lemma {:induction false} DistinctCard(s: seq<int>)
    requires Distinct(s)
    ensures |Elements(s)| == |s|
  {
    if |s| > 0 {
      var s' := s[..|s| - 1];
      assert Distinct(s');
      DistinctCard(s');
      assert s[|s| - 1] !in s';
      assert Elements(s) == Elements(s') + {s[|s| - 1]};
    }
  }
}
