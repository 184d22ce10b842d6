/**
 * `get_neighbors`, shared by hill climbing and simulated annealing: every
 * route that differs from the given one by swapping the cities at two
 * positions i < j, listed in the order of the two nested loops.
 */
module Neighbours {
  import opened Tours

  /** A pair of positions (i, j) of the nested loops. */
  type Move = (nat, nat)

  /** The route with the cities at positions i and j exchanged. */
  function Swap(r: seq<int>, i: nat, j: nat): (s: seq<int>)
    requires i < |r| && j < |r|
    ensures |s| == |r|
    ensures s[i] == r[j] && s[j] == r[i]
    ensures forall k :: 0 <= k < |r| && k != i && k != j ==> s[k] == r[k]
  {
    r[i := r[j]][j := r[i]]
  }

  /** `(i, j)` comes before `(a, b)` in the nested-loop order. */
  predicate Earlier(p: Move, q: Move) {
    p.0 < q.0 || (p.0 == q.0 && p.1 < q.1)
  }

  /** The moves the nested loops visit for an n-city route: i < j < n, i outermost. */
  function Pairs(n: nat): seq<Move> {
    PairsFrom(n, 0)
  }

  /** Iterations of the outer loop from i onward. */
  function PairsFrom(n: nat, i: nat): seq<Move>
    decreases n - i
  {
    if i >= n then [] else Row(n, i, i + 1) + PairsFrom(n, i + 1)
  }

  /** Iterations of the inner loop for fixed i, from j onward. */
  function Row(n: nat, i: nat, j: nat): seq<Move>
    decreases n - j
  {
    if j >= n then [] else [(i, j)] + Row(n, i, j + 1)
  }

  /** The inner loop for i yields (i, j), (i, j + 1), ..., (i, n - 1). */
  lemma {:induction false} RowFacts(n: nat, i: nat, j: nat)
    requires j <= n
    ensures |Row(n, i, j)| == n - j
    ensures forall k :: 0 <= k < n - j ==> Row(n, i, j)[k] == (i, j + k)
    decreases n - j
  {
    if j < n {
      RowFacts(n, i, j + 1);
    }
  }

  /** From outer index i on, the loops yield (n - i)(n - i - 1) / 2 moves. */
  lemma {:induction false} PairsFromCount(n: nat, i: nat)
    requires i <= n
    ensures 2 * |PairsFrom(n, i)| == (n - i) * (n - i - 1)
    decreases n - i
  {
    if i < n {
      RowFacts(n, i, i + 1);
      PairsFromCount(n, i + 1);
    }
  }

  /** From outer index i on, every move yielded is a pair i <= a < b < n. */
  lemma {:induction false} PairsFromBounds(n: nat, i: nat)
    ensures forall k :: 0 <= k < |PairsFrom(n, i)| ==>
      i <= PairsFrom(n, i)[k].0 < PairsFrom(n, i)[k].1 < n
    decreases n - i
  {
    if i < n {
      var row, rest := Row(n, i, i + 1), PairsFrom(n, i + 1);
      RowFacts(n, i, i + 1);
      PairsFromBounds(n, i + 1);
      var all: seq<Move> := row + rest;
      forall k | 0 <= k < |all|
        ensures i <= all[k].0 < all[k].1 < n
      {
        if k >= |row| {
          assert all[k] == rest[k - |row|];
        }
      }
    }
  }

  /** From outer index i on, every pair i <= a < b < n is yielded. */
  lemma {:induction false} PairsFromCovers(n: nat, i: nat)
    ensures forall a: nat, b: nat :: i <= a < b < n ==> (a, b) in PairsFrom(n, i)
    decreases n - i
  {
    if i < n {
      var row, rest := Row(n, i, i + 1), PairsFrom(n, i + 1);
      RowFacts(n, i, i + 1);
      PairsFromCovers(n, i + 1);
      forall a: nat, b: nat | i <= a < b < n
        ensures (a, b) in row + rest
      {
        if a == i {
          assert row[b - i - 1] == (a, b);
        } else {
          assert (a, b) in rest;
        }
      }
    }
  }

  /** From outer index i on, the moves come in strictly increasing loop order. */
  lemma {:induction false} PairsFromOrdered(n: nat, i: nat)
    ensures forall x, y :: 0 <= x < y < |PairsFrom(n, i)| ==>
      Earlier(PairsFrom(n, i)[x], PairsFrom(n, i)[y])
    decreases n - i
  {
    if i < n {
      var row, rest := Row(n, i, i + 1), PairsFrom(n, i + 1);
      RowFacts(n, i, i + 1);
      PairsFromBounds(n, i + 1);
      PairsFromOrdered(n, i + 1);
      var all := row + rest;
      forall x, y | 0 <= x < y < |all|
        ensures Earlier(all[x], all[y])
      {
        if y < |row| {
          assert all[x] == row[x] && all[y] == row[y];
        } else if x < |row| {
          assert all[x] == row[x] && all[y] == rest[y - |row|];
        } else {
          assert all[x] == rest[x - |row|] && all[y] == rest[y - |row|];
        }
      }
    }
  }

  /**
   * `get_neighbors` yields n(n - 1)/2 moves, every pair i < j < n once,
   * in strictly increasing nested-loop order.
   */
  lemma PairsFacts(n: nat)
    ensures 2 * |Pairs(n)| == n * (n - 1)
    ensures forall k :: 0 <= k < |Pairs(n)| ==> Pairs(n)[k].0 < Pairs(n)[k].1 < n
    ensures forall a: nat, b: nat :: a < b < n ==> (a, b) in Pairs(n)
    ensures forall x, y :: 0 <= x < y < |Pairs(n)| ==> Earlier(Pairs(n)[x], Pairs(n)[y])
  {
    PairsFromCount(n, 0);
    PairsFromBounds(n, 0);
    PairsFromCovers(n, 0);
    PairsFromOrdered(n, 0);
  }

  /** Of two listed moves, the one earlier in loop order sits earlier in the list. */
  lemma PairsPosition(n: nat, x: nat, y: nat)
    requires x < |Pairs(n)| && y < |Pairs(n)|
    requires Earlier(Pairs(n)[x], Pairs(n)[y])
    ensures x < y
  {
    PairsFacts(n);
  }

  /** A swap reorders the route and keeps it on the matrix. */
  lemma SwapPermutation(g: Matrix, r: seq<int>, i: nat, j: nat)
    requires i < |r| && j < |r|
    ensures IsPermutation(Swap(r, i, j), r)
    ensures OnMatrix(g, r) ==> OnMatrix(g, Swap(r, i, j))
  {
    SwapMultiset(r, i, j);
    if OnMatrix(g, r) {
      var s := Swap(r, i, j);
      forall k | 0 <= k < |s|
        ensures 0 <= s[k] < |g|
      {
        assert s[k] == r[if k == i then j else if k == j then i else k];
      }
    }
  }

  lemma SwapMultiset(r: seq<int>, i: nat, j: nat)
    requires i < |r| && j < |r|
    ensures multiset(Swap(r, i, j)) == multiset(r)
  {
    if i != j {
      assert multiset(r[i := r[j]]) == multiset(r) - multiset{r[i]} + multiset{r[j]};
      assert multiset(Swap(r, i, j)) == multiset(r[i := r[j]]) - multiset{r[j]} + multiset{r[i]};
    } else {
      assert Swap(r, i, j) == r;
    }
  }

  lemma Regroup<T>(a: seq<T>, x: T, b: seq<T>, c: seq<T>)
    ensures a + ([x] + b) + c == (a + [x]) + b + c
  {
  }

  /** `neighbors[k]` is the route with the positions of the k-th listed move exchanged. */
  predicate Listed(route: seq<int>, done: seq<Move>, neighbors: seq<seq<int>>) {
    && |neighbors| == |done|
    && forall k :: 0 <= k < |done| ==>
      done[k].0 < done[k].1 < |route| && neighbors[k] == Swap(route, done[k].0, done[k].1)
  }

  lemma ListedSnoc(route: seq<int>, done: seq<Move>, neighbors: seq<seq<int>>, i: nat, j: nat)
    requires Listed(route, done, neighbors) && i < j < |route|
    ensures Listed(route, done + [(i, j)], neighbors + [Swap(route, i, j)])
  {
    var done', neighbors' := done + [(i, j)], neighbors + [Swap(route, i, j)];
    forall k | 0 <= k < |done'|
      ensures done'[k].0 < done'[k].1 < |route| && neighbors'[k] == Swap(route, done'[k].0, done'[k].1)
    {
      if k < |done| {
        assert done'[k] == done[k] && neighbors'[k] == neighbors[k];
      }
    }
  }

  /**
   * `get_neighbors(route)`: a fresh copy of the route for every (i, j) of the
   * nested loops, with positions i and j exchanged; the route itself is left
   * as it was.
   */
  method GetNeighbors(route: seq<int>) returns (neighbors: seq<seq<int>>)
    ensures |neighbors| == |Pairs(|route|)|
    ensures 2 * |neighbors| == |route| * (|route| - 1)
    ensures forall k :: 0 <= k < |neighbors| ==>
      && Pairs(|route|)[k].0 < Pairs(|route|)[k].1 < |route|
      && neighbors[k] == Swap(route, Pairs(|route|)[k].0, Pairs(|route|)[k].1)
  {
    var n := |route|;
    neighbors := [];
    ghost var done: seq<Move> := [];
    for i := 0 to n
      invariant Pairs(n) == done + PairsFrom(n, i)
      invariant Listed(route, done, neighbors)
    {
      neighbors, done := AddRow(route, i, neighbors, done);
    }
    assert done == Pairs(n);
    PairsFromCount(n, 0);
  }

  /** One pass of the outer loop: the copies for (i, i + 1), ..., (i, n - 1) are appended. */
  method AddRow(route: seq<int>, i: nat, neighbors: seq<seq<int>>, ghost done: seq<Move>)
    returns (neighbors': seq<seq<int>>, ghost done': seq<Move>)
    requires i < |route|
    requires Pairs(|route|) == done + PairsFrom(|route|, i)
    requires Listed(route, done, neighbors)
    ensures Pairs(|route|) == done' + PairsFrom(|route|, i + 1)
    ensures Listed(route, done', neighbors')
  {
    var n := |route|;
    neighbors', done' := neighbors, done;
    assert PairsFrom(n, i) == Row(n, i, i + 1) + PairsFrom(n, i + 1);
    for j := i + 1 to n
      invariant Pairs(n) == done' + Row(n, i, j) + PairsFrom(n, i + 1)
      invariant Listed(route, done', neighbors')
    {
      assert Row(n, i, j) == [(i, j)] + Row(n, i, j + 1);
      Regroup(done', (i, j), Row(n, i, j + 1), PairsFrom(n, i + 1));
      var neighbor := route[i := route[j]][j := route[i]];
      ListedSnoc(route, done', neighbors', i, j);
      neighbors' := neighbors' + [neighbor];
      done' := done' + [(i, j)];
    }
  }
}
