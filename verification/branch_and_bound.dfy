/**
 * `solve_tsp_branch_bound`: depth-first extension of a path from city 0,
 * pruned by a lower bound built from each city's two cheapest outgoing edges.
 * The bound moves in halves, so the model keeps it doubled (`twiceBound` is
 * twice `current_bound`) and every quantity stays an integer.
 */
module BranchAndBound {
  import opened Outcomes
  import opened Tours

  /** `final_res[0]` and `final_path`: the best closed tour so far and its cost. */
  datatype Best = Best(res: Ext, route: seq<int>)

  /**
   * One entry into `tsp_rec` below the caller: the path it extends, the
   * doubled bound and the weight it was given, and `final_res[0]` when the
   * bound test let it through.
   */
  datatype Visit = Visit(prefix: seq<int>, twiceBound: Ext, weight: int, incumbent: Ext)

  /** Number of columns k < j other than i: the off-diagonal entries of row i seen so far. */
  function OffDiagonal(i: nat, j: nat): nat {
    if i < j then j - 1 else j
  }

  /** The `first_min` scan over columns k < j: keeps an entry strictly below the minimum so far. */
  function FirstMinUpTo(adj: Matrix, i: nat, j: nat): (r: Ext)
    requires IsSquare(adj) && i < |adj| && j <= |adj|
    ensures forall k :: 0 <= k < j && k != i ==> r.AtMost(Fin(adj[i][k]))
    ensures r.Fin? <==> OffDiagonal(i, j) >= 1
    ensures r.Fin? ==> exists k :: 0 <= k < j && k != i && adj[i][k] == r.v
  {
    if j == 0 then Inf
    else
      var m := FirstMinUpTo(adj, i, j - 1);
      if Fin(adj[i][j - 1]).Less(m) && i != j - 1 then Fin(adj[i][j - 1]) else m
  }

  /** `first_min(adj, i)`: the cheapest edge out of i to another city, infinite when there is none. */
  function FirstMin(adj: Matrix, i: nat): Ext
    requires IsSquare(adj) && i < |adj|
  {
    FirstMinUpTo(adj, i, |adj|)
  }

  /** The pair `first, second` that `second_min` carries through its scan. */
  datatype Lowest = Lowest(first: Ext, second: Ext)

  /**
   * The `second_min` scan over columns j' < j: an entry at most `first`
   * pushes `first` down to `second`; otherwise one at most `second` replaces it.
   */
  function LowestUpTo(adj: Matrix, i: nat, j: nat): (r: Lowest)
    requires IsSquare(adj) && i < |adj| && j <= |adj|
    ensures r.first.AtMost(r.second)
    ensures forall k :: 0 <= k < j && k != i ==> r.first.AtMost(Fin(adj[i][k]))
    ensures r.first.Fin? <==> OffDiagonal(i, j) >= 1
    ensures r.second.Fin? <==> OffDiagonal(i, j) >= 2
    ensures r.first.Fin? ==> exists k :: 0 <= k < j && k != i && adj[i][k] == r.first.v
  {
    if j == 0 then Lowest(Inf, Inf)
    else
      var p := LowestUpTo(adj, i, j - 1);
      var a := Fin(adj[i][j - 1]);
      if i == j - 1 then p
      else if a.AtMost(p.first) then Lowest(a, p.first)
      else if a.AtMost(p.second) then Lowest(p.first, a)
      else p
  }

  /**
   * A finite `second` is attained by one off-diagonal entry while another
   * off-diagonal entry is no dearer: it is a second cheapest edge.
   */
  lemma {:induction false} SecondAttained(adj: Matrix, i: nat, j: nat)
    requires IsSquare(adj) && i < |adj| && j <= |adj|
    ensures var r := LowestUpTo(adj, i, j);
      r.second.Fin? ==> exists k1, k2 ::
        && 0 <= k1 < j && 0 <= k2 < j && k1 != k2 && k1 != i && k2 != i
        && adj[i][k1] == r.second.v && adj[i][k2] <= r.second.v
  {
    if j > 0 {
      SecondAttained(adj, i, j - 1);
      var p, r := LowestUpTo(adj, i, j - 1), LowestUpTo(adj, i, j);
      var a := Fin(adj[i][j - 1]);
      if i == j - 1 {
        assert r == p;
      } else if a.AtMost(p.first) {
        assert r == Lowest(a, p.first);
        if p.first.Fin? {
          var k :| 0 <= k < j - 1 && k != i && adj[i][k] == p.first.v;
          assert k != j - 1 && adj[i][k] == r.second.v && adj[i][j - 1] <= r.second.v;
        }
      } else if a.AtMost(p.second) {
        assert r == Lowest(p.first, a);
        var k :| 0 <= k < j - 1 && k != i && adj[i][k] == p.first.v;
        assert k != j - 1 && adj[i][j - 1] == r.second.v && adj[i][k] <= r.second.v;
      } else {
        assert r == p;
      }
    }
  }

  /** At most one off-diagonal entry lies strictly below `second`: nothing cheaper was skipped. */
  lemma {:induction false} SecondTight(adj: Matrix, i: nat, j: nat)
    requires IsSquare(adj) && i < |adj| && j <= |adj|
    ensures var r := LowestUpTo(adj, i, j);
      forall k1, k2 :: 0 <= k1 < k2 < j && k1 != i && k2 != i ==>
        !(Fin(adj[i][k1]).Less(r.second) && Fin(adj[i][k2]).Less(r.second))
  {
    if j > 0 {
      SecondTight(adj, i, j - 1);
      var p, r := LowestUpTo(adj, i, j - 1), LowestUpTo(adj, i, j);
      var a := Fin(adj[i][j - 1]);
      forall k1, k2 | 0 <= k1 < k2 < j && k1 != i && k2 != i
        ensures !(Fin(adj[i][k1]).Less(r.second) && Fin(adj[i][k2]).Less(r.second))
      {
        assert p.first.AtMost(Fin(adj[i][k1]));
        if i == j - 1 {
          assert r == p;
        } else if a.AtMost(p.first) {
          assert r.second == p.first;
        } else if k2 < j - 1 {
          assert r.second.AtMost(p.second);
        } else {
          assert !a.Less(r.second);
        }
      }
    }
  }

  /** `second_min(adj, i)`: the second cheapest edge out of i, counting ties twice. */
  function SecondMin(adj: Matrix, i: nat): Ext
    requires IsSquare(adj) && i < |adj|
  {
    LowestUpTo(adj, i, |adj|).second
  }

  /**
   * The two scans agree on the cheapest edge, `second_min` is never below
   * `first_min`, and both are finite exactly when row i has enough
   * off-diagonal entries.
   */
  lemma MinsOfRow(adj: Matrix, i: nat)
    requires IsSquare(adj) && i < |adj|
    ensures LowestUpTo(adj, i, |adj|).first == FirstMin(adj, i)
    ensures FirstMin(adj, i).AtMost(SecondMin(adj, i))
    ensures FirstMin(adj, i).Fin? <==> |adj| >= 2
    ensures SecondMin(adj, i).Fin? <==> |adj| >= 3
  {
    var n := |adj|;
    var a, b := LowestUpTo(adj, i, n).first, FirstMin(adj, i);
    if a.Fin? {
      var k :| 0 <= k < n && k != i && adj[i][k] == a.v;
      var k' :| 0 <= k' < n && k' != i && adj[i][k'] == b.v;
      assert b.AtMost(Fin(adj[i][k])) && a.AtMost(Fin(adj[i][k']));
    }
  }

  /** The sum, over the rows below k, of `first_min + second_min`. */
  function RowSum(adj: Matrix, k: nat): (r: Ext)
    requires IsSquare(adj) && k <= |adj|
    ensures r.Fin? <==> k == 0 || |adj| >= 3
  {
    if k == 0 then Fin(0)
    else
      MinsOfRow(adj, k - 1);
      RowSum(adj, k - 1).Plus(FirstMin(adj, k - 1).Plus(SecondMin(adj, k - 1)))
  }

  /**
   * `np.ceil(current_bound / 2)` after the row loop, doubled: twice the
   * ceiling of half the row sum, infinite when the sum is.
   */
  function RootBound(adj: Matrix): (r: Ext)
    requires IsSquare(adj)
    ensures r.Inf? <==> RowSum(adj, |adj|).Inf?
    ensures r.Fin? ==> r.v % 2 == 0 && RowSum(adj, |adj|).v <= r.v <= RowSum(adj, |adj|).v + 1
  {
    match RowSum(adj, |adj|)
    case Inf => Inf
    case Fin(s) => Fin(2 * CeilHalf(s))
  }

  /** `np.ceil(s / 2)` for an integer s: the least c with s <= 2c. */
  function CeilHalf(s: int): (c: int)
    ensures s <= 2 * c <= s + 1
  {
    (s + 1) / 2
  }

  /** `visited`: a flag per city, set exactly for the cities on the path's first `level` positions. */
  predicate MarksPrefix(visited: seq<bool>, p: seq<int>, level: nat, n: nat)
    requires level <= |p|
  {
    |visited| == n && forall c :: 0 <= c < n ==> (visited[c] <==> c in p[..level])
  }

  /** A walk from city 0 through distinct cities, each joined to the one before by a non-zero edge. */
  predicate Walk(adj: Matrix, q: seq<int>) {
    && IsSquare(adj)
    && |q| >= 1
    && q[0] == 0
    && Distinct(q)
    && OnMatrix(adj, q)
    && forall k :: 0 <= k < |q| - 1 ==> adj[q[k]][q[k + 1]] != 0
  }

  /** The `current_path` array `tsp_rec` is handed at `level`: its first `level` entries are a walk. */
  predicate Partial(adj: Matrix, p: seq<int>, level: nat) {
    && |p| == |adj| + 1
    && 1 <= level <= |adj|
    && Walk(adj, p[..level])
  }

  /**
   * A closed tour `final_path` may take: every city once from city 0 and back
   * to it, over non-zero edges only.
   */
  predicate ValidTour(adj: Matrix, t: seq<int>) {
    && IsSquare(adj)
    && |t| == |adj| + 1
    && OnMatrix(adj, t)
    && t[0] == 0 && t[|adj|] == 0
    && IsPermutation(t[..|adj|], Range(|adj|))
    && forall k :: 0 <= k < |adj| ==> adj[t[k]][t[k + 1]] != 0
  }

  /** Every tour reached is valid and extends `prefix`. */
  predicate LeavesOk(adj: Matrix, leaves: seq<seq<int>>, prefix: seq<int>) {
    forall k :: 0 <= k < |leaves| ==> ValidTour(adj, leaves[k]) && prefix <= leaves[k]
  }

  /** `current_bound + current_weight < final_res[0]`, in doubled form. */
  predicate Admitted(v: Visit) {
    v.twiceBound.Plus(Fin(2 * v.weight)).Less(v.incumbent.Twice())
  }

  /**
   * The bound `tsp_rec` tries a child at `level` with, in doubled form: at
   * level 1 the cheapest edges of both cities come off, deeper the second
   * cheapest edge of the city left and the cheapest of the city entered.
   */
  function ChildBound(adj: Matrix, twiceBound: Ext, level: nat, from: nat, i: nat): (r: Ext)
    requires IsSquare(adj) && 1 <= level < |adj| && from < |adj| && i < |adj|
    ensures r.Fin? <==> twiceBound.Fin?
  {
    MinsOfRow(adj, from);
    MinsOfRow(adj, i);
    if level == 1 then twiceBound.Minus(FirstMin(adj, from).v + FirstMin(adj, i).v)
    else twiceBound.Minus(SecondMin(adj, from).v + FirstMin(adj, i).v)
  }

  /**
   * `tsp_rec` at `level` recurses into city i: the edge from the last city is
   * non-zero, i is not on the path yet, and the child passes the bound test
   * against the incumbent `final_res[0]`.
   */
  predicate Enters(adj: Matrix, twiceBound: Ext, weight: int, level: nat, path: seq<int>, incumbent: Ext, i: nat)
    requires IsSquare(adj) && Partial(adj, path, level) && level < |adj| && i < |adj|
  {
    PartialEntries(adj, path, level);
    var from := path[level - 1];
    && adj[from][i] != 0
    && i !in path[..level]
    && Admitted(Visit(path[..level] + [i], ChildBound(adj, twiceBound, level, from, i), weight + adj[from][i], incumbent))
  }

  /** Some valid tour starts with `prefix`. */
  ghost predicate Completable(adj: Matrix, prefix: seq<int>) {
    exists t :: ValidTour(adj, t) && prefix <= t
  }

  /** No bound test can fail: the bound is finite and `final_res[0]` is still infinite. */
  predicate Unpruned(twiceBound: Ext, incumbent: Ext) {
    twiceBound.Fin? && incumbent.Inf?
  }

  /** While nothing can be pruned, a city some valid tour takes next is entered. */
  lemma TourEnters(adj: Matrix, twiceBound: Ext, weight: int, level: nat, path: seq<int>, incumbent: Ext, i: nat)
    requires IsSquare(adj) && Partial(adj, path, level) && level < |adj| && i < |adj|
    requires Unpruned(twiceBound, incumbent) && Completable(adj, path[..level] + [i])
    ensures Enters(adj, twiceBound, weight, level, path, incumbent, i)
  {
    TourSteps(adj, path, level, i);
  }

  /**
   * A valid tour through the prefix and then city i takes a non-zero edge
   * into i, and i is not on the prefix: the first two tests of `tsp_rec`.
   */
  lemma TourSteps(adj: Matrix, path: seq<int>, level: nat, i: nat)
    requires IsSquare(adj) && Partial(adj, path, level) && level < |adj| && i < |adj|
    ensures forall t :: ValidTour(adj, t) && path[..level] + [i] <= t ==>
      adj[path[level - 1]][i] != 0 && i !in path[..level]
  {
    var n := |adj|;
    var q := path[..level] + [i];
    forall t | ValidTour(adj, t) && q <= t
      ensures adj[path[level - 1]][i] != 0 && i !in path[..level]
    {
      assert t[level - 1] == q[level - 1] == path[level - 1];
      assert t[level] == q[level] == i;
      assert adj[t[level - 1]][t[level]] != 0;
      RangeFacts(n);
      PermutationOfDistinct(t[..n], Range(n));
      forall k | 0 <= k < level
        ensures path[..level][k] != i
      {
        assert path[..level][k] == q[k] == t[..n][k] && i == t[..n][level];
      }
    }
  }

  /** A completable prefix short of a tour has a completable one-city extension. */
  lemma CompletableStep(adj: Matrix, prefix: seq<int>)
    requires Completable(adj, prefix) && |prefix| < |adj|
    ensures exists j :: 0 <= j < |adj| && Completable(adj, prefix + [j])
  {
    var t :| ValidTour(adj, t) && prefix <= t;
    var j := t[|prefix|];
    assert prefix + [j] == t[..|prefix| + 1];
    assert ValidTour(adj, t) && prefix + [j] <= t;
  }

  /** A completable path through every city has a non-zero edge home. */
  lemma CompletableLeaf(adj: Matrix, path: seq<int>)
    requires IsSquare(adj) && Partial(adj, path, |adj|) && Completable(adj, path[..|adj|])
    ensures adj[path[|adj| - 1]][path[0]] != 0
  {
    var n := |adj|;
    var t :| ValidTour(adj, t) && path[..n] <= t;
    assert t[n - 1] == path[..n][n - 1] == path[n - 1];
    assert path[0] == path[..n][0] == 0 == t[n];
    assert adj[t[n - 1]][t[n]] != 0;
  }

  /**
   * The doubled bound `tsp_rec` carries into the prefix `t[..k]` when it
   * descends along tour t from `level` with the bound `twiceBound`.
   */
  ghost function BoundAlong(adj: Matrix, twiceBound: Ext, level: nat, t: seq<int>, k: nat): Ext
    requires IsSquare(adj) && OnMatrix(adj, t) && 1 <= level <= k <= |adj| && k <= |t|
    decreases k - level
  {
    if k == level then twiceBound
    else ChildBound(adj, BoundAlong(adj, twiceBound, level, t, k - 1), k - 1, t[k - 2], t[k - 1])
  }

  /**
   * One of the bound tests on the way from `level` down tour t fails against
   * `incumbent`: once `final_res[0]` is that low, `tsp_rec` does not reach t.
   */
  ghost predicate Pruned(adj: Matrix, twiceBound: Ext, level: nat, t: seq<int>, incumbent: Ext)
    requires ValidTour(adj, t) && 1 <= level
  {
    exists k :: level < k <= |adj| &&
      !Admitted(Visit(t[..k], BoundAlong(adj, twiceBound, level, t, k), PathCost(adj, t[..k]), incumbent))
  }

  /**
   * Every valid tour extending `prefix` is among the `leaves`, or a bound
   * test below `level` cuts it against `incumbent`.
   */
  ghost predicate Covered(adj: Matrix, twiceBound: Ext, level: nat, prefix: seq<int>, leaves: seq<seq<int>>,
                          incumbent: Ext)
    requires 1 <= level
  {
    forall t :: ValidTour(adj, t) && prefix <= t ==> t in leaves || Pruned(adj, twiceBound, level, t, incumbent)
  }

  /** `Covered`, for the tours whose city after `prefix` is below i: the cities `tsp_rec`'s loop has passed. */
  ghost predicate CoveredBelow(adj: Matrix, twiceBound: Ext, level: nat, prefix: seq<int>, leaves: seq<seq<int>>,
                               incumbent: Ext, i: int)
    requires 1 <= level == |prefix| < |adj|
  {
    forall t :: ValidTour(adj, t) && prefix <= t && t[level] < i ==>
      t in leaves || Pruned(adj, twiceBound, level, t, incumbent)
  }

  /** Once the loop has passed every city, every tour through the prefix is covered. */
  lemma CoveredAll(adj: Matrix, twiceBound: Ext, level: nat, prefix: seq<int>, leaves: seq<seq<int>>, incumbent: Ext)
    requires 1 <= level == |prefix| < |adj|
    requires CoveredBelow(adj, twiceBound, level, prefix, leaves, incumbent, |adj|)
    ensures Covered(adj, twiceBound, level, prefix, leaves, incumbent)
  {
    forall t | ValidTour(adj, t) && prefix <= t
      ensures t in leaves || Pruned(adj, twiceBound, level, t, incumbent)
    {
      assert t[level] < |adj|;
    }
  }

  /** At the last level the only tour through the path is the path closed home, reached when its edge home exists. */
  lemma LeafCovered(adj: Matrix, twiceBound: Ext, path: seq<int>, incumbent: Ext)
    requires IsSquare(adj) && Partial(adj, path, |adj|)
    ensures var leaves := if adj[path[|adj| - 1]][path[0]] != 0 then [path[..|adj|] + [path[0]]] else [];
      Covered(adj, twiceBound, |adj|, path[..|adj|], leaves, incumbent)
  {
    forall t | ValidTour(adj, t) && path[..|adj|] <= t {
      LeafTour(adj, path, t);
    }
  }

  /** A bound test that fails against an incumbent also fails against any lower one. */
  lemma PrunedLower(adj: Matrix, twiceBound: Ext, level: nat, t: seq<int>, hi: Ext, lo: Ext)
    requires ValidTour(adj, t) && 1 <= level && lo.AtMost(hi)
    requires Pruned(adj, twiceBound, level, t, hi)
    ensures Pruned(adj, twiceBound, level, t, lo)
  {
    var k :| level < k <= |adj| &&
      !Admitted(Visit(t[..k], BoundAlong(adj, twiceBound, level, t, k), PathCost(adj, t[..k]), hi));
    assert !Admitted(Visit(t[..k], BoundAlong(adj, twiceBound, level, t, k), PathCost(adj, t[..k]), lo));
  }

  /** Descending along t from `level` passes through the child bound at `level + 1`. */
  lemma {:induction false} BoundAlongShift(adj: Matrix, twiceBound: Ext, level: nat, t: seq<int>, k: nat)
    requires IsSquare(adj) && OnMatrix(adj, t) && 1 <= level < k <= |adj| && k <= |t|
    ensures BoundAlong(adj, twiceBound, level, t, k)
         == BoundAlong(adj, ChildBound(adj, twiceBound, level, t[level - 1], t[level]), level + 1, t, k)
    decreases k - level
  {
    if k > level + 1 {
      BoundAlongShift(adj, twiceBound, level, t, k - 1);
    }
  }

  /**
   * A tour cut at the child, by the child's own bound test or one below it,
   * is cut below the parent.
   */
  lemma PrunedShift(adj: Matrix, twiceBound: Ext, level: nat, t: seq<int>, incumbent: Ext)
    requires ValidTour(adj, t) && 1 <= level < |adj|
    ensures var childBound := ChildBound(adj, twiceBound, level, t[level - 1], t[level]);
      || !Admitted(Visit(t[..level + 1], childBound, PathCost(adj, t[..level + 1]), incumbent))
      || Pruned(adj, childBound, level + 1, t, incumbent)
      ==> Pruned(adj, twiceBound, level, t, incumbent)
  {
    var childBound := ChildBound(adj, twiceBound, level, t[level - 1], t[level]);
    if Pruned(adj, childBound, level + 1, t, incumbent) {
      var k :| level + 1 < k <= |adj| &&
        !Admitted(Visit(t[..k], BoundAlong(adj, childBound, level + 1, t, k), PathCost(adj, t[..k]), incumbent));
      BoundAlongShift(adj, twiceBound, level, t, k);
    }
    assert BoundAlong(adj, twiceBound, level, t, level + 1) == childBound;
  }

  /** The only valid tour extending a full path is that path closed back to city 0. */
  lemma LeafTour(adj: Matrix, path: seq<int>, t: seq<int>)
    requires IsSquare(adj) && Partial(adj, path, |adj|) && ValidTour(adj, t) && path[..|adj|] <= t
    ensures adj[path[|adj| - 1]][path[0]] != 0 && t == path[..|adj|] + [path[0]]
  {
    var n := |adj|;
    assert t[n - 1] == path[..n][n - 1] == path[n - 1];
    assert path[0] == path[..n][0] == 0 == t[n];
    assert adj[t[n - 1]][t[n]] != 0;
    assert t == t[..n] + [t[n]];
  }

  /**
   * Candidate i once entered: if the child's bound test passes against the
   * final incumbent, the child covers the tours through i; otherwise that
   * test itself cuts them. Either way they are covered below the parent.
   */
  lemma EnteredCovers(adj: Matrix, twiceBound: Ext, weight: int, level: nat, path: seq<int>, i: nat,
                      leaves: seq<seq<int>>, incumbent: Ext)
    requires IsSquare(adj) && Partial(adj, path, level) && level < |adj| && i < |adj|
    requires weight == PathCost(adj, path[..level]) && 0 <= path[level - 1] < |adj|
    requires var childBound := ChildBound(adj, twiceBound, level, path[level - 1], i);
      Admitted(Visit(path[..level] + [i], childBound, weight + adj[path[level - 1]][i], incumbent)) ==>
        Covered(adj, childBound, level + 1, path[..level] + [i], leaves, incumbent)
    ensures Covered(adj, twiceBound, level, path[..level] + [i], leaves, incumbent)
  {
    var q := path[..level] + [i];
    PathCostSnoc(adj, path[..level], i);
    forall t | ValidTour(adj, t) && q <= t
      ensures t in leaves || Pruned(adj, twiceBound, level, t, incumbent)
    {
      assert t[..level + 1] == q;
      assert t[level - 1] == q[level - 1] == path[level - 1] && t[level] == q[level] == i;
      PrunedShift(adj, twiceBound, level, t, incumbent);
    }
  }

  /**
   * One pass of `tsp_rec`'s loop: the tours through the cities before i
   * stay covered as the incumbent falls, and the branch for i covers those
   * through i.
   */
  lemma CoverStep(adj: Matrix, twiceBound: Ext, level: nat, prefix: seq<int>, leaves0: seq<seq<int>>,
                  branchLeaves: seq<seq<int>>, b0: Best, b: Best, i: int)
    requires IsSquare(adj) && 1 <= level == |prefix| && level < |adj|
    requires LeavesOk(adj, branchLeaves, prefix + [i]) && b == Improve(adj, b0, branchLeaves)
    requires CoveredBelow(adj, twiceBound, level, prefix, leaves0, b0.res, i)
    requires Covered(adj, twiceBound, level, prefix + [i], branchLeaves, b.res)
    ensures CoveredBelow(adj, twiceBound, level, prefix, leaves0 + branchLeaves, b.res, i + 1)
  {
    ImproveResult(adj, b0, branchLeaves);
    forall t | ValidTour(adj, t) && prefix <= t && t[level] < i + 1
      ensures t in leaves0 + branchLeaves || Pruned(adj, twiceBound, level, t, b.res)
    {
      if t[level] < i {
        if t !in leaves0 {
          PrunedLower(adj, twiceBound, level, t, b0.res, b.res);
        }
      } else {
        assert prefix + [i] == t[..level + 1];
      }
    }
  }

  /** Every valid tour starts at city 0, so covering the tours through `[0]` covers them all. */
  lemma FromZeroCovered(adj: Matrix, twiceBound: Ext, leaves: seq<seq<int>>, incumbent: Ext)
    requires IsSquare(adj) && |adj| >= 1
    requires Covered(adj, twiceBound, 1, [0], leaves, incumbent)
    ensures forall t :: ValidTour(adj, t) ==> t in leaves || Pruned(adj, twiceBound, 1, t, incumbent)
  {
    forall t | ValidTour(adj, t)
      ensures t in leaves || Pruned(adj, twiceBound, 1, t, incumbent)
    {
      assert t[..1] == [0];
    }
  }

  /** Every valid tour starts at city 0. */
  lemma StartsAtZero(adj: Matrix)
    requires IsSquare(adj) && |adj| >= 1
    ensures Completable(adj, [0]) <==> exists t :: ValidTour(adj, t)
  {
    if exists t :: ValidTour(adj, t) {
      var t :| ValidTour(adj, t);
      assert [0] <= t;
    }
  }

  /**
   * With three or more cities the root bound is finite, so a search from
   * `[0]` that reaches a tour whenever one through `[0]` exists reaches one
   * exactly when the matrix has a valid tour.
   */
  lemma FromZeroReaches(adj: Matrix, leaves: seq<seq<int>>)
    requires IsSquare(adj) && |adj| >= 3 && LeavesOk(adj, leaves, [0])
    requires Unpruned(RootBound(adj), Inf) && Completable(adj, [0]) ==> |leaves| > 0
    ensures |leaves| > 0 <==> exists t :: ValidTour(adj, t)
  {
    StartsAtZero(adj);
    if |leaves| > 0 {
      assert ValidTour(adj, leaves[0]);
    }
  }

  /**
   * Every entry recorded passed the bound test, extends `prefix` by at least
   * one city with its weight as the path's edge sum, and found `final_res[0]`
   * between `lo` (the value afterwards) and `hi` (the value before).
   */
  predicate VisitsOk(adj: Matrix, visits: seq<Visit>, prefix: seq<int>, lo: Ext, hi: Ext)
    requires IsSquare(adj)
  {
    forall k :: 0 <= k < |visits| ==>
      && Admitted(visits[k])
      && prefix < visits[k].prefix
      && OnMatrix(adj, visits[k].prefix)
      && visits[k].weight == PathCost(adj, visits[k].prefix)
      && lo.AtMost(visits[k].incumbent)
      && visits[k].incumbent.AtMost(hi)
  }

  /** `tsp_rec` at the last level: a tour replaces the best only when strictly cheaper. */
  function Offer(adj: Matrix, b: Best, t: seq<int>): Best
    requires IsSquare(adj) && OnMatrix(adj, t)
  {
    if Fin(PathCost(adj, t)).Less(b.res) then Best(Fin(PathCost(adj, t)), t) else b
  }

  /** The best after offering the tours `ts` in the order they were reached. */
  function Improve(adj: Matrix, b: Best, ts: seq<seq<int>>): Best
    requires IsSquare(adj) && forall k :: 0 <= k < |ts| ==> OnMatrix(adj, ts[k])
  {
    if |ts| == 0 then b else Offer(adj, Improve(adj, b, ts[..|ts| - 1]), ts[|ts| - 1])
  }

  lemma {:induction false} ImproveAppend(adj: Matrix, b: Best, xs: seq<seq<int>>, ys: seq<seq<int>>)
    requires IsSquare(adj)
    requires forall k :: 0 <= k < |xs| ==> OnMatrix(adj, xs[k])
    requires forall k :: 0 <= k < |ys| ==> OnMatrix(adj, ys[k])
    ensures forall k :: 0 <= k < |xs + ys| ==> OnMatrix(adj, (xs + ys)[k])
    ensures Improve(adj, b, xs + ys) == Improve(adj, Improve(adj, b, xs), ys)
    decreases |ys|
  {
    if |ys| == 0 {
      assert xs + ys == xs;
    } else {
      var ys' := ys[..|ys| - 1];
      ImproveAppend(adj, b, xs, ys');
      assert (xs + ys)[..|xs + ys| - 1] == xs + ys';
    }
  }

  /** Tour number `at` is the one kept: `r` holds it and its cost, which every earlier tour exceeds. */
  predicate FirstCheapest(adj: Matrix, ts: seq<seq<int>>, at: int, r: Best)
    requires IsSquare(adj) && forall k :: 0 <= k < |ts| ==> OnMatrix(adj, ts[k])
  {
    && 0 <= at < |ts| && r.route == ts[at]
    && r.res == Fin(PathCost(adj, ts[at]))
    && forall j :: 0 <= j < at ==> r.res.Less(Fin(PathCost(adj, ts[j])))
  }

  /**
   * Strict `<` keeps the first cheapest: the best either stays as it was,
   * no worse than every tour offered, or is the earliest offered tour that
   * undercuts it and every tour before it strictly.
   */
  lemma {:induction false} ImproveResult(adj: Matrix, b: Best, ts: seq<seq<int>>)
    requires IsSquare(adj) && forall k :: 0 <= k < |ts| ==> OnMatrix(adj, ts[k])
    ensures var r := Improve(adj, b, ts);
      && r.res.AtMost(b.res)
      && (forall k :: 0 <= k < |ts| ==> r.res.AtMost(Fin(PathCost(adj, ts[k]))))
      && (r == b || exists at :: FirstCheapest(adj, ts, at, r) && r.res.Less(b.res))
  {
    if |ts| > 0 {
      var init := ts[..|ts| - 1];
      ImproveResult(adj, b, init);
      var r0 := Improve(adj, b, init);
      var t := ts[|ts| - 1];
      forall k | 0 <= k < |ts| - 1
        ensures ts[k] == init[k]
      {
      }
      if Fin(PathCost(adj, t)).Less(r0.res) {
        assert FirstCheapest(adj, ts, |ts| - 1, Improve(adj, b, ts));
      } else if r0 != b {
        var at :| FirstCheapest(adj, init, at, r0) && r0.res.Less(b.res);
        assert FirstCheapest(adj, ts, at, r0);
      }
    }
  }

  /**
   * The end of each pass of `tsp_rec`'s loop: `visited` rebuilt from the
   * path's first `level` positions, skipping -1.
   */
  method Rebuild(p: seq<int>, level: nat, n: nat) returns (visited: seq<bool>)
    requires level <= |p| && forall j :: 0 <= j < level ==> p[j] == -1 || 0 <= p[j] < n
    ensures MarksPrefix(visited, p, level, n)
  {
    visited := seq(n, _ => false);
    for j := 0 to level
      invariant |visited| == n && forall c :: 0 <= c < n ==> (visited[c] <==> c in p[..j])
    {
      assert p[..j + 1] == p[..j] + [p[j]];
      if p[j] != -1 {
        visited := visited[p[j] := true];
      }
    }
  }

  /**
   * `tsp_rec(adj, current_bound, current_weight, level, current_path, visited,
   * final_res, final_path)`. The ghost `leaves` are the closed tours reached,
   * in order; `visits` are the entries into `tsp_rec` below this one.
   */
  method Extend(adj: Matrix, twiceBound: Ext, weight: int, level: nat, path: seq<int>,
                visited: seq<bool>, best: Best)
    returns (p: seq<int>, b: Best, ghost leaves: seq<seq<int>>, ghost visits: seq<Visit>)
    requires IsSquare(adj) && Partial(adj, path, level)
    requires weight == PathCost(adj, path[..level])
    requires MarksPrefix(visited, path, level, |adj|)
    decreases |adj| - level, 4
    ensures |p| == |adj| + 1 && p[..level] == path[..level]
    ensures LeavesOk(adj, leaves, path[..level])
    ensures b == Improve(adj, best, leaves)
    ensures VisitsOk(adj, visits, path[..level], b.res, best.res)
    ensures twiceBound.Inf? && level < |adj| ==> leaves == [] && visits == [] && b == best
    ensures level == |adj| ==> visits == []
    ensures level == |adj| ==>
      leaves == if adj[path[level - 1]][path[0]] != 0 then [path[..level] + [path[0]]] else []
    ensures Unpruned(twiceBound, best.res) && Completable(adj, path[..level]) ==> |leaves| > 0
    ensures Covered(adj, twiceBound, level, path[..level], leaves, b.res)
  {
    var n := |adj|;
    p, b, leaves, visits := path, best, [], [];
    if level == n {
      b, leaves := Close(adj, twiceBound, weight, path, best);
      return;
    }
    var vis := visited;
    for i := 0 to n
      invariant Sweep(adj, twiceBound, level, path, best, p, vis, b, leaves, visits, i)
    {
      p, vis, b, leaves, visits := Advance(adj, twiceBound, weight, level, path, best, p, vis, b, leaves, visits, i);
    }
    if Unpruned(twiceBound, best.res) && Completable(adj, path[..level]) {
      CompletableStep(adj, path[..level]);
    }
    CoveredAll(adj, twiceBound, level, path[..level], leaves, b.res);
  }

  /**
   * `tsp_rec` at `level == N`: the path closes into a tour when its last
   * city has an edge home, and that tour replaces the best one when it is
   * strictly cheaper.
   */
  method Close(adj: Matrix, twiceBound: Ext, weight: int, path: seq<int>, best: Best)
    returns (b: Best, ghost leaves: seq<seq<int>>)
    requires IsSquare(adj) && Partial(adj, path, |adj|)
    requires weight == PathCost(adj, path[..|adj|])
    ensures leaves == if adj[path[|adj| - 1]][path[0]] != 0 then [path[..|adj|] + [path[0]]] else []
    ensures LeavesOk(adj, leaves, path[..|adj|])
    ensures b == Improve(adj, best, leaves)
    ensures Completable(adj, path[..|adj|]) ==> |leaves| > 0
    ensures Covered(adj, twiceBound, |adj|, path[..|adj|], leaves, b.res)
  {
    var n := |adj|;
    b, leaves := best, [];
    if Completable(adj, path[..n]) {
      CompletableLeaf(adj, path);
    }
    LeafCovered(adj, twiceBound, path, b.res);
    var back := adj[path[n - 1]][path[0]];
    if back != 0 {
      var currentRes := weight + back;
      var tour := path[..n] + [path[0]];
      Closed(adj, path, weight);
      leaves := [tour];
      if Fin(currentRes).Less(best.res) {
        b := Best(Fin(currentRes), tour);
      }
    }
  }

  /**
   * What holds of `tsp_rec`'s loop before candidate i: the path and flags
   * are restored, the tours reached so far extend the path, the best is the
   * best over them, and every tour through a city below i is covered.
   */
  ghost predicate Sweep(adj: Matrix, twiceBound: Ext, level: nat, path: seq<int>, best: Best, p: seq<int>,
                        vis: seq<bool>, b: Best, leaves: seq<seq<int>>, visits: seq<Visit>, i: int)
    requires IsSquare(adj) && Partial(adj, path, level) && level < |adj|
  {
    && |p| == |adj| + 1 && p[..level] == path[..level]
    && MarksPrefix(vis, p, level, |adj|)
    && LeavesOk(adj, leaves, path[..level])
    && b == Improve(adj, best, leaves)
    && VisitsOk(adj, visits, path[..level], b.res, best.res)
    && (twiceBound.Inf? ==> leaves == [] && visits == [] && b == best)
    && (Unpruned(twiceBound, best.res) && leaves == [] ==>
         forall j :: 0 <= j < i ==> !Completable(adj, path[..level] + [j]))
    && CoveredBelow(adj, twiceBound, level, path[..level], leaves, b.res, i)
  }

  /** One turn of `tsp_rec`'s loop: the branch for candidate i, and its tours appended to those so far. */
  method Advance(adj: Matrix, twiceBound: Ext, weight: int, level: nat, path: seq<int>, best: Best,
                 p: seq<int>, vis: seq<bool>, b: Best, ghost leaves: seq<seq<int>>, ghost visits: seq<Visit>, i: nat)
    returns (p': seq<int>, vis': seq<bool>, b': Best, ghost leaves': seq<seq<int>>, ghost visits': seq<Visit>)
    requires IsSquare(adj) && Partial(adj, path, level) && level < |adj| && i < |adj|
    requires weight == PathCost(adj, path[..level])
    requires Sweep(adj, twiceBound, level, path, best, p, vis, b, leaves, visits, i)
    decreases |adj| - level, 3
    ensures Sweep(adj, twiceBound, level, path, best, p', vis', b', leaves', visits', i + 1)
  {
    assert Partial(adj, p, level) && PathCost(adj, p[..level]) == weight;
    var w, bound;
    ghost var branchLeaves, branchVisits;
    p', vis', b', w, bound, branchLeaves, branchVisits := Branch(adj, twiceBound, weight, level, p, vis, b, i);
    Gather(adj, best, b, b', leaves, branchLeaves, visits, branchVisits, path[..level], i);
    NoTourYet(adj, twiceBound, best, b, leaves, branchLeaves, path[..level], i);
    CoverStep(adj, twiceBound, level, path[..level], leaves, branchLeaves, b, b', i);
    leaves' := leaves + branchLeaves;
    visits' := visits + branchVisits;
  }

  /**
   * One pass of the loop over candidate cities: the tours and entries of the
   * branch for city i follow those of the earlier cities, and the best after
   * the branch is the best over all tours so far.
   */
  lemma Gather(adj: Matrix, best: Best, b0: Best, b: Best, leaves0: seq<seq<int>>, branchLeaves: seq<seq<int>>,
               visits0: seq<Visit>, branchVisits: seq<Visit>, prefix: seq<int>, i: int)
    requires IsSquare(adj)
    requires LeavesOk(adj, leaves0, prefix) && LeavesOk(adj, branchLeaves, prefix + [i])
    requires b0 == Improve(adj, best, leaves0) && b == Improve(adj, b0, branchLeaves)
    requires VisitsOk(adj, visits0, prefix, b0.res, best.res) && VisitsOk(adj, branchVisits, prefix, b.res, b0.res)
    ensures LeavesOk(adj, leaves0 + branchLeaves, prefix)
    ensures b == Improve(adj, best, leaves0 + branchLeaves)
    ensures VisitsOk(adj, visits0 + branchVisits, prefix, b.res, best.res)
  {
    LeavesAppend(adj, leaves0, branchLeaves, prefix, i);
    ImproveAppend(adj, best, leaves0, branchLeaves);
    ImproveResult(adj, b0, branchLeaves);
    ImproveResult(adj, best, leaves0);
    VisitsAppend(adj, visits0, branchVisits, prefix, b.res, b0.res, best.res);
  }

  /**
   * While nothing can be pruned, a loop that has reached no tour through the
   * cities up to i has met no city that starts a completable extension.
   */
  lemma NoTourYet(adj: Matrix, twiceBound: Ext, best: Best, b0: Best, leaves0: seq<seq<int>>,
                  branchLeaves: seq<seq<int>>, prefix: seq<int>, i: int)
    requires IsSquare(adj) && LeavesOk(adj, leaves0, prefix) && b0 == Improve(adj, best, leaves0)
    requires Unpruned(twiceBound, best.res) && leaves0 == [] ==>
      forall j :: 0 <= j < i ==> !Completable(adj, prefix + [j])
    requires Unpruned(twiceBound, b0.res) && Completable(adj, prefix + [i]) ==> |branchLeaves| > 0
    ensures Unpruned(twiceBound, best.res) && leaves0 + branchLeaves == [] ==>
      forall j :: 0 <= j < i + 1 ==> !Completable(adj, prefix + [j])
  {
  }

  /** `tsp_rec` at the last level reaches a closed tour: its cost is the weight plus the edge home. */
  lemma Closed(adj: Matrix, path: seq<int>, weight: int)
    requires IsSquare(adj) && Partial(adj, path, |adj|)
    requires weight == PathCost(adj, path[..|adj|])
    requires adj[path[|adj| - 1]][path[0]] != 0
    ensures ValidTour(adj, path[..|adj|] + [path[0]])
    ensures PathCost(adj, path[..|adj|] + [path[0]]) == weight + adj[path[|adj| - 1]][path[0]]
    ensures path[..|adj|] <= path[..|adj|] + [path[0]]
  {
    var q := path[..|adj|];
    assert q[|q| - 1] == path[|adj| - 1] && q[0] == path[0];
    CloseWalk(adj, q);
  }

  /** A walk through every city, closed by its edge home, is a valid tour costing its weight plus that edge. */
  lemma CloseWalk(adj: Matrix, q: seq<int>)
    requires Walk(adj, q) && |q| == |adj| && adj[q[|q| - 1]][q[0]] != 0
    ensures ValidTour(adj, q + [q[0]])
    ensures PathCost(adj, q + [q[0]]) == PathCost(adj, q) + adj[q[|q| - 1]][q[0]]
  {
    var n := |adj|;
    var t := q + [q[0]];
    assert t[..n] == q;
    assert forall k :: 0 <= k < n ==> t[k] == q[k];
    assert IsPermutation(t[..n], Range(n)) by {
      DistinctFillsRange(q, n);
    }
    forall k | 0 <= k < n
      ensures adj[t[k]][t[k + 1]] != 0
    {
      if k < n - 1 {
        assert t[k + 1] == q[k + 1];
      }
    }
  }

  /**
   * One pass of `tsp_rec`'s loop, for candidate city i: extend only to an
   * unvisited city over a non-zero edge, recurse only when the bound test
   * passes, then restore the weight and the bound and rebuild `visited`.
   */
  method Branch(adj: Matrix, twiceBound: Ext, weight: int, level: nat, path: seq<int>,
                visited: seq<bool>, best: Best, i: nat)
    returns (p: seq<int>, vis: seq<bool>, b: Best, currentWeight: int, currentBound: Ext,
             ghost leaves: seq<seq<int>>, ghost visits: seq<Visit>)
    requires IsSquare(adj) && Partial(adj, path, level) && level < |adj| && i < |adj|
    requires weight == PathCost(adj, path[..level])
    requires MarksPrefix(visited, path, level, |adj|)
    decreases |adj| - level, 2
    ensures |p| == |adj| + 1 && p[..level] == path[..level]
    ensures MarksPrefix(vis, p, level, |adj|)
    ensures currentWeight == weight && currentBound == twiceBound
    ensures LeavesOk(adj, leaves, path[..level] + [i])
    ensures b == Improve(adj, best, leaves)
    ensures VisitsOk(adj, visits, path[..level], b.res, best.res)
    ensures |visits| > 0 <==> Enters(adj, twiceBound, weight, level, path, best.res, i)
    ensures |visits| > 0 ==> visits[0].prefix == path[..level] + [i] && visits[0].incumbent == best.res
    ensures |leaves| > 0 ==> |visits| > 0
    ensures twiceBound.Inf? ==> leaves == [] && visits == [] && b == best
    ensures Unpruned(twiceBound, best.res) && Completable(adj, path[..level] + [i]) ==> |leaves| > 0
    ensures Covered(adj, twiceBound, level, path[..level] + [i], leaves, b.res)
  {
    var n := |adj|;
    p, vis, b, leaves, visits := path, visited, best, [], [];
    currentWeight, currentBound := weight, twiceBound;
    var from := p[level - 1];
    PartialEntries(adj, p, level);
    if adj[from][i] != 0 && !vis[i] {
      var temp := currentBound;
      currentWeight := currentWeight + adj[from][i];
      currentBound := ChildBound(adj, currentBound, level, from, i);
      p, b, leaves, visits := Descend(adj, currentBound, weight, level, path, visited, best, i);
      EnteredCovers(adj, twiceBound, weight, level, path, i, leaves, b.res);
      SamePrefix(p, path, level, level);
      currentWeight := currentWeight - adj[p[level - 1]][i];
      currentBound := temp;
      vis := Rebuild(p, level, n);
    } else {
      TourSteps(adj, path, level, i);
    }
  }

  /**
   * The bound test of `tsp_rec` for one candidate: a candidate whose doubled
   * bound plus twice its path weight stays below twice `final_res[0]` is
   * placed at `level`, marked visited, and searched below with the weight
   * including its edge; any other is not entered.
   */
  method Descend(adj: Matrix, childBound: Ext, weight: int, level: nat, path: seq<int>,
                 visited: seq<bool>, best: Best, i: nat)
    returns (p: seq<int>, b: Best, ghost leaves: seq<seq<int>>, ghost visits: seq<Visit>)
    requires IsSquare(adj) && Partial(adj, path, level) && level < |adj| && i < |adj|
    requires weight == PathCost(adj, path[..level])
    requires MarksPrefix(visited, path, level, |adj|)
    requires adj[path[level - 1]][i] != 0 && !visited[i]
    decreases |adj| - level, 1
    ensures |p| == |adj| + 1 && p[..level] == path[..level]
    ensures LeavesOk(adj, leaves, path[..level] + [i])
    ensures b == Improve(adj, best, leaves)
    ensures VisitsOk(adj, visits, path[..level], b.res, best.res)
    ensures |visits| > 0 <==> Admitted(Visit(path[..level] + [i], childBound, weight + adj[path[level - 1]][i], best.res))
    ensures |visits| > 0 ==> visits[0].prefix == path[..level] + [i] && visits[0].incumbent == best.res
    ensures |leaves| > 0 ==> |visits| > 0
    ensures Unpruned(childBound, best.res) && Completable(adj, path[..level] + [i]) ==> |leaves| > 0
    ensures Admitted(Visit(path[..level] + [i], childBound, weight + adj[path[level - 1]][i], b.res)) ==>
      Covered(adj, childBound, level + 1, path[..level] + [i], leaves, b.res)
  {
    p, b, leaves, visits := path, best, [], [];
    var childWeight := weight + adj[path[level - 1]][i];
    if childBound.Plus(Fin(2 * childWeight)).Less(best.res.Twice()) {
      p, b, leaves, visits := Enter(adj, childBound, weight, level, path, visited, best, i);
    }
  }

  /**
   * `tsp_rec` past the bound test: candidate i is placed at `level` and
   * marked visited, and the search goes on one level down with the weight
   * including its edge. The entry is recorded ahead of those below it.
   */
  method Enter(adj: Matrix, childBound: Ext, weight: int, level: nat, path: seq<int>,
               visited: seq<bool>, best: Best, i: nat)
    returns (p: seq<int>, b: Best, ghost leaves: seq<seq<int>>, ghost visits: seq<Visit>)
    requires IsSquare(adj) && Partial(adj, path, level) && level < |adj| && i < |adj|
    requires weight == PathCost(adj, path[..level])
    requires MarksPrefix(visited, path, level, |adj|)
    requires adj[path[level - 1]][i] != 0 && !visited[i]
    requires Admitted(Visit(path[..level] + [i], childBound, weight + adj[path[level - 1]][i], best.res))
    decreases |adj| - level, 0
    ensures |p| == |adj| + 1 && p[..level] == path[..level]
    ensures LeavesOk(adj, leaves, path[..level] + [i])
    ensures b == Improve(adj, best, leaves)
    ensures VisitsOk(adj, visits, path[..level], b.res, best.res)
    ensures |visits| > 0 && visits[0].prefix == path[..level] + [i] && visits[0].incumbent == best.res
    ensures Unpruned(childBound, best.res) && Completable(adj, path[..level] + [i]) ==> |leaves| > 0
    ensures Covered(adj, childBound, level + 1, path[..level] + [i], leaves, b.res)
  {
    var childWeight := weight + adj[path[level - 1]][i];
    var child := path[level := i];
    var vis := visited[i := true];
    Step(adj, path, level, i, weight, visited);
    ghost var v := Visit(path[..level] + [i], childBound, childWeight, best.res);
    ghost var childLeaves, childVisits;
    p, b, childLeaves, childVisits := Extend(adj, childBound, childWeight, level + 1, child, vis, best);
    SamePrefix(p, child, level + 1, level);
    ImproveResult(adj, best, childLeaves);
    VisitsCons(adj, v, childVisits, path[..level], b.res, best.res);
    leaves := childLeaves;
    visits := [v] + childVisits;
  }

  /** Two paths that agree on their first k entries agree on any shorter prefix. */
  lemma SamePrefix(a: seq<int>, b: seq<int>, k: nat, m: nat)
    requires m <= k <= |a| && k <= |b| && a[..k] == b[..k]
    ensures a[..m] == b[..m]
    ensures forall j :: 0 <= j < m ==> a[j] == b[j]
  {
    assert a[..m] == a[..k][..m] && b[..m] == b[..k][..m];
    forall j | 0 <= j < m
      ensures a[j] == b[j]
    {
      assert a[j] == a[..k][j] && b[j] == b[..k][j];
    }
  }

  /** The first `level` entries of `current_path` are cities, so the rebuild may index by them. */
  lemma PartialEntries(adj: Matrix, p: seq<int>, level: nat)
    requires Partial(adj, p, level)
    ensures forall j :: 0 <= j < level ==> 0 <= p[j] < |adj|
  {
    forall j | 0 <= j < level
      ensures 0 <= p[j] < |adj|
    {
      assert p[j] == p[..level][j];
    }
  }

  /** A visit followed by the visits below it: all extend the caller's path. */
  lemma VisitsCons(adj: Matrix, v: Visit, below: seq<Visit>, prefix: seq<int>, lo: Ext, hi: Ext)
    requires IsSquare(adj) && OnMatrix(adj, v.prefix)
    requires Admitted(v) && prefix < v.prefix && v.weight == PathCost(adj, v.prefix)
    requires lo.AtMost(v.incumbent) && v.incumbent == hi
    requires VisitsOk(adj, below, v.prefix, lo, v.incumbent)
    ensures VisitsOk(adj, [v] + below, prefix, lo, hi)
  {
    forall k | 0 <= k < |below|
      ensures prefix < below[k].prefix
    {
      assert prefix == v.prefix[..|prefix|] && v.prefix == below[k].prefix[..|v.prefix|];
      assert prefix == below[k].prefix[..|prefix|];
    }
  }

  /** Visits of consecutive branches, with `final_res[0]` falling through `hi`, `mid`, `lo`. */
  lemma VisitsAppend(adj: Matrix, first: seq<Visit>, second: seq<Visit>, prefix: seq<int>, lo: Ext, mid: Ext, hi: Ext)
    requires IsSquare(adj) && lo.AtMost(mid) && mid.AtMost(hi)
    requires VisitsOk(adj, first, prefix, mid, hi) && VisitsOk(adj, second, prefix, lo, mid)
    ensures VisitsOk(adj, first + second, prefix, lo, hi)
  {
    forall k | 0 <= k < |first|
      ensures lo.AtMost(first[k].incumbent)
    {
      AtMostTrans(lo, mid, first[k].incumbent);
    }
    forall k | 0 <= k < |second|
      ensures second[k].incumbent.AtMost(hi)
    {
      AtMostTrans(second[k].incumbent, mid, hi);
    }
    forall k | 0 <= k < |first + second|
      ensures (first + second)[k] == if k < |first| then first[k] else second[k - |first|]
    {
    }
  }

  lemma AtMostTrans(a: Ext, b: Ext, c: Ext)
    requires a.AtMost(b) && b.AtMost(c)
    ensures a.AtMost(c)
  {
  }

  /** Tours below one branch extend the caller's path too. */
  lemma LeavesAppend(adj: Matrix, first: seq<seq<int>>, second: seq<seq<int>>, prefix: seq<int>, i: int)
    requires LeavesOk(adj, first, prefix) && LeavesOk(adj, second, prefix + [i])
    ensures LeavesOk(adj, first + second, prefix)
    ensures forall k :: 0 <= k < |first| ==> OnMatrix(adj, first[k])
    ensures forall k :: 0 <= k < |second| ==> OnMatrix(adj, second[k])
  {
    forall k | 0 <= k < |second|
      ensures prefix <= second[k]
    {
      assert prefix == (prefix + [i])[..|prefix|];
    }
    forall k | 0 <= k < |first + second|
      ensures (first + second)[k] == if k < |first| then first[k] else second[k - |first|]
    {
    }
  }

  /** `tsp_rec` before recursing: the child path and flags one level down. */
  lemma Step(adj: Matrix, path: seq<int>, level: nat, i: nat, weight: int, visited: seq<bool>)
    requires IsSquare(adj) && Partial(adj, path, level) && level < |adj| && i < |adj|
    requires weight == PathCost(adj, path[..level])
    requires MarksPrefix(visited, path, level, |adj|)
    requires adj[path[level - 1]][i] != 0 && !visited[i]
    ensures path[level := i][..level + 1] == path[..level] + [i]
    ensures Partial(adj, path[level := i], level + 1)
    ensures PathCost(adj, path[level := i][..level + 1]) == weight + adj[path[level - 1]][i]
    ensures MarksPrefix(visited[i := true], path[level := i], level + 1, |adj|)
  {
    var q := path[..level];
    assert path[level := i][..level + 1] == q + [i];
    assert q[|q| - 1] == path[level - 1];
    ExtendWalk(adj, q, i);
  }

  /** Appending an unvisited city over a non-zero edge keeps a walk a walk. */
  lemma ExtendWalk(adj: Matrix, q: seq<int>, i: nat)
    requires Walk(adj, q) && i < |adj| && i !in q && adj[q[|q| - 1]][i] != 0
    ensures Walk(adj, q + [i])
    ensures PathCost(adj, q + [i]) == PathCost(adj, q) + adj[q[|q| - 1]][i]
  {
    PathCostSnoc(adj, q, i);
    var t := q + [i];
    assert Distinct(t) by {
      forall a, b | 0 <= a < b < |t|
        ensures t[a] != t[b]
      {
        assert t[a] == q[a];
      }
    }
    assert forall k :: 0 <= k < |t| - 1 ==> adj[t[k]][t[k + 1]] != 0 by {
      forall k | 0 <= k < |t| - 1
        ensures adj[t[k]][t[k + 1]] != 0
      {
        if k < |q| - 1 {
          assert t[k] == q[k] && t[k + 1] == q[k + 1];
        }
      }
    }
  }

  /**
   * `solve_tsp_branch_bound(adj)`: city 0 is the start, the root bound comes
   * from every row's two cheapest edges, and the search begins at level 1.
   */
  method Solve(adj: Matrix) returns (r: Result<Best>, ghost leaves: seq<seq<int>>, ghost visits: seq<Visit>)
    requires IsSquare(adj)
    ensures |adj| == 0 <==> r == Err(IndexError)
    ensures r.Ok? ==> |r.value.route| == |adj| + 1
    ensures r.Ok? ==> (r.value.res.Inf? <==> |leaves| == 0)
    ensures r.Ok? && r.value.res.Inf? ==> forall k :: 0 <= k <= |adj| ==> r.value.route[k] == -1
    ensures r.Ok? && r.value.res.Fin? ==>
      && ValidTour(adj, r.value.route)
      && r.value.res == Fin(PathCost(adj, r.value.route))
      && r.value.res == Fin(CycleCost(adj, r.value.route[..|adj|]))
    ensures LeavesOk(adj, leaves, [0])
    ensures r.Ok? ==> forall k :: 0 <= k < |leaves| ==> r.value.res.AtMost(Fin(PathCost(adj, leaves[k])))
    ensures r.Ok? && r.value.res.Fin? ==> exists at :: FirstCheapest(adj, leaves, at, r.value)
    ensures r.Ok? ==> VisitsOk(adj, visits, [0], r.value.res, Inf)
    ensures |adj| == 1 ==> r == Ok(if adj[0][0] != 0 then Best(Fin(adj[0][0]), [0, 0]) else Best(Inf, [-1, -1]))
    ensures |adj| == 2 ==> r == Ok(Best(Inf, [-1, -1, -1]))
    ensures r.Ok? && |adj| >= 3 ==> (r.value.res.Inf? <==> !exists t :: ValidTour(adj, t))
    ensures r.Ok? ==> forall t :: ValidTour(adj, t) && t !in leaves ==> Pruned(adj, RootBound(adj), 1, t, r.value.res)
  {
    var n := |adj|;
    if n == 0 {
      // `visited[0] = True` on an empty list
      return Err(IndexError), [], [];
    }
    var best := Best(Inf, NoRoute(n));
    var b;
    b, leaves, visits := Root(adj);
    Outcome(adj, best, leaves);
    r := Ok(b);
    if n == 1 {
      assert best.route == [-1, -1];
      assert PathCost(adj, [0, 0]) == adj[0][0];
    }
    if n == 2 {
      assert best.route == [-1, -1, -1];
    }
  }

  /**
   * `solve_tsp_branch_bound` up to the search: the root bound, city 0 on the
   * path and marked, and the search from level 1.
   */
  method Root(adj: Matrix) returns (b: Best, ghost leaves: seq<seq<int>>, ghost visits: seq<Visit>)
    requires IsSquare(adj) && |adj| >= 1
    ensures LeavesOk(adj, leaves, [0])
    ensures b == Improve(adj, Best(Inf, NoRoute(|adj|)), leaves)
    ensures VisitsOk(adj, visits, [0], b.res, Inf)
    ensures |adj| == 1 ==> leaves == if adj[0][0] != 0 then [[0, 0]] else []
    ensures |adj| == 2 ==> leaves == []
    ensures |adj| >= 3 ==> (|leaves| > 0 <==> exists t :: ValidTour(adj, t))
    ensures forall t :: ValidTour(adj, t) ==> t in leaves || Pruned(adj, RootBound(adj), 1, t, b.res)
  {
    var n := |adj|;
    var twiceBound := RootBound(adj);
    var path := NoRoute(n)[0 := 0];
    var visited := seq(n, _ => false)[0 := true];
    var best := Best(Inf, NoRoute(n));
    RootStart(adj, path, visited);
    var p;
    p, b, leaves, visits := Extend(adj, twiceBound, 0, 1, path, visited, best);
    if n <= 2 {
      FewCities(adj, path, leaves);
    }
    FromZeroCovered(adj, twiceBound, leaves, b.res);
    if n >= 3 {
      FromZeroReaches(adj, leaves);
    }
  }

  /** `final_path = [-1] * (N + 1)`: the route before any tour is closed. */
  function NoRoute(n: nat): (r: seq<int>)
    ensures |r| == n + 1 && forall k :: 0 <= k < |r| ==> r[k] == -1
  {
    seq(n + 1, _ => -1)
  }

  /** `current_path[0] = 0` and `visited[0] = True`: the search starts from the walk `[0]` of weight 0. */
  lemma RootStart(adj: Matrix, path: seq<int>, visited: seq<bool>)
    requires IsSquare(adj) && |adj| >= 1
    requires |path| == |adj| + 1 && path[0] == 0
    requires |visited| == |adj| && visited[0] && forall c :: 0 < c < |adj| ==> !visited[c]
    ensures path[..1] == [0] && Partial(adj, path, 1) && PathCost(adj, path[..1]) == 0
    ensures MarksPrefix(visited, path, 1, |adj|)
  {
    assert path[..1] == [0];
  }

  /**
   * `solve_tsp_branch_bound` after the search: starting from `final_res = [inf]` and an
   * all -1 `final_path`, the best is still that start exactly when no tour was
   * reached, and otherwise the first cheapest tour reached.
   */
  lemma Outcome(adj: Matrix, best: Best, leaves: seq<seq<int>>)
    requires IsSquare(adj) && |adj| >= 1 && LeavesOk(adj, leaves, [0])
    requires best == Best(Inf, NoRoute(|adj|))
    ensures var b := Improve(adj, best, leaves);
      && |b.route| == |adj| + 1
      && (b.res.Inf? <==> |leaves| == 0)
      && (b.res.Inf? ==> forall k :: 0 <= k <= |adj| ==> b.route[k] == -1)
      && (forall k :: 0 <= k < |leaves| ==> b.res.AtMost(Fin(PathCost(adj, leaves[k]))))
    ensures var b := Improve(adj, best, leaves);
      b.res.Fin? ==>
        && ValidTour(adj, b.route)
        && b.res == Fin(PathCost(adj, b.route))
        && b.res == Fin(CycleCost(adj, b.route[..|adj|]))
        && exists at :: FirstCheapest(adj, leaves, at, b)
  {
    var b := Improve(adj, best, leaves);
    ImproveResult(adj, best, leaves);
    if |leaves| > 0 {
      assert b.res.AtMost(Fin(PathCost(adj, leaves[0])));
      assert b != best;
      var at :| FirstCheapest(adj, leaves, at, b);
      TourIsCycle(adj, b.route);
    }
  }

  /** A valid tour's edge sum is `calculate_cost` of its first |adj| entries. */
  lemma TourIsCycle(adj: Matrix, t: seq<int>)
    requires ValidTour(adj, t)
    ensures PathCost(adj, t) == CycleCost(adj, t[..|adj|])
  {
    var n := |adj|;
    CycleCostCloses(adj, t[..n]);
    assert t[..n] + [t[..n][0]] == t;
  }

  /**
   * With two cities each row has one off-diagonal entry, so `second_min` is
   * infinite, and so is the root bound: no branch passes the bound test.
   */
  /**
   * One city closes `[0]` over its self-loop when that edge is non-zero; two
   * cities give an infinite root bound, so nothing is searched.
   */
  lemma FewCities(adj: Matrix, path: seq<int>, leaves: seq<seq<int>>)
    requires IsSquare(adj) && 1 <= |adj| <= 2 && |path| >= 1 && path[0] == 0
    requires |adj| == 1 ==> leaves == if adj[path[0]][path[0]] != 0 then [path[..1] + [path[0]]] else []
    requires RootBound(adj).Inf? && 1 < |adj| ==> leaves == []
    ensures |adj| == 1 ==> leaves == if adj[0][0] != 0 then [[0, 0]] else []
    ensures |adj| == 2 ==> leaves == []
  {
    if |adj| == 1 {
      assert path[..1] + [path[0]] == [0, 0];
    } else {
      TwoCitiesUnbounded(adj);
    }
  }

  lemma TwoCitiesUnbounded(adj: Matrix)
    requires IsSquare(adj) && |adj| == 2
    ensures SecondMin(adj, 0).Inf? && SecondMin(adj, 1).Inf?
    ensures RootBound(adj).Inf?
  {
    MinsOfRow(adj, 0);
    MinsOfRow(adj, 1);
  }
}
