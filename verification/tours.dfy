/**
 * Cost matrices, routes over city indices, and the two ways the solvers add
 * up a route: the open path sum and the wrap-around cycle sum of
 * `calculate_cost`.
 */
module Tours {

  /** Row i holds the costs of leaving city i; the TSPLIB weights are integers. */
  type Matrix = seq<seq<int>>

  predicate IsSquare(g: Matrix) {
    forall i :: 0 <= i < |g| ==> |g[i]| == |g|
  }

  /** Every entry of `r` is a city of `g`. */
  predicate OnMatrix(g: Matrix, r: seq<int>) {
    forall k :: 0 <= k < |r| ==> 0 <= r[k] < |g|
  }

  predicate Distinct<T(==)>(s: seq<T>) {
    forall i, j :: 0 <= i < j < |s| ==> s[i] != s[j]
  }

  predicate IsPermutation<T(==)>(p: seq<T>, s: seq<T>) {
    multiset(p) == multiset(s)
  }

  function Elements<T(==)>(s: seq<T>): set<T> {
    set x | x in s
  }

  /** The cities 0, 1, ..., n - 1 in order. */
  function Range(n: nat): (r: seq<int>)
    ensures |r| == n
    ensures forall i :: 0 <= i < n ==> r[i] == i
  {
    seq(n, i => i)
  }

  function Reverse<T>(s: seq<T>): (r: seq<T>)
    ensures |r| == |s|
    ensures forall i :: 0 <= i < |s| ==> r[i] == s[|s| - 1 - i]
  {
    if |s| == 0 then [] else [s[|s| - 1]] + Reverse(s[..|s| - 1])
  }

  /** The sum of the edges between consecutive entries of an open path. */
  function PathCost(g: Matrix, p: seq<int>): int
    requires IsSquare(g) && OnMatrix(g, p)
  {
    if |p| <= 1 then 0 else PathCost(g, p[..|p| - 1]) + g[p[|p| - 2]][p[|p| - 1]]
  }

  /**
   * `calculate_cost`: the edges route[i] -> route[(i + 1) mod n] for every i < n,
   * so the last city is joined back to the first.
   */
  function CycleCost(g: Matrix, r: seq<int>): int
    requires IsSquare(g) && OnMatrix(g, r)
  {
    WrapSum(g, r, |r|)
  }

  /**
   * The first k terms of the `calculate_cost` loop; term i joins route[i] to
   * route[(i + 1) mod n], which is route[0] for the last term.
   */
  function WrapSum(g: Matrix, r: seq<int>, k: nat): int
    requires IsSquare(g) && OnMatrix(g, r) && k <= |r|
  {
    if k == 0 then 0 else WrapSum(g, r, k - 1) + g[r[k - 1]][r[if k == |r| then 0 else k]]
  }

  /**
   * The `calculate_cost` loop: the closed walk through the route and back to
   * its first city, and 0 for an empty route.
   */
  method CalculateCost(g: Matrix, route: seq<int>) returns (total: int)
    requires IsSquare(g) && OnMatrix(g, route)
    ensures |route| == 0 ==> total == 0
    ensures |route| >= 1 ==> total == PathCost(g, route + [route[0]])
    ensures total == CycleCost(g, route)
  {
    total := 0;
    var n := |route|;
    for i := 0 to n
      invariant total == WrapSum(g, route, i)
    {
      var current := route[i];
      WrapIndex(i + 1, n);
      var next := route[(i + 1) % n];
      total := total + g[current][next];
    }
    if n >= 1 {
      CycleCostCloses(g, route);
    }
  }

  /** `(i + 1) % n` for i < n: the next position, or 0 after the last. */
  lemma WrapIndex(k: nat, n: nat)
    requires 0 < n && k <= n
    ensures k % n == if k == n then 0 else k
  {
  }

  /** Before the last term, the wrap-around sum is an ordinary path sum. */
  lemma {:induction false} WrapSumIsPathCost(g: Matrix, r: seq<int>, k: nat)
    requires IsSquare(g) && OnMatrix(g, r) && k < |r|
    ensures WrapSum(g, r, k) == PathCost(g, r[..k + 1])
  {
    if k > 0 {
      WrapSumIsPathCost(g, r, k - 1);
      assert r[..k + 1][..k] == r[..k];
      assert PathCost(g, r[..k + 1]) == PathCost(g, r[..k]) + g[r[k - 1]][r[k]];
    }
  }

  /** The cycle cost is the open path cost plus the closing edge back to the first city. */
  lemma CycleCostCloses(g: Matrix, r: seq<int>)
    requires IsSquare(g) && OnMatrix(g, r) && |r| >= 1
    ensures CycleCost(g, r) == PathCost(g, r) + g[r[|r| - 1]][r[0]]
    ensures CycleCost(g, r) == PathCost(g, r + [r[0]])
  {
    CycleCostOpen(g, r);
    PathCostSnoc(g, r, r[0]);
  }

  lemma CycleCostOpen(g: Matrix, r: seq<int>)
    requires IsSquare(g) && OnMatrix(g, r) && |r| >= 1
    ensures CycleCost(g, r) == PathCost(g, r) + g[r[|r| - 1]][r[0]]
  {
    var n := |r|;
    WrapSumIsPathCost(g, r, n - 1);
    assert r[..n] == r;
    WrapSumLast(g, r);
  }

  /** The last term of the `calculate_cost` loop is the edge back to the first city. */
  lemma WrapSumLast(g: Matrix, r: seq<int>)
    requires IsSquare(g) && OnMatrix(g, r) && |r| >= 1
    ensures WrapSum(g, r, |r|) == WrapSum(g, r, |r| - 1) + g[r[|r| - 1]][r[0]]
  {
  }

  /** Appending a city adds the edge into it. */
  lemma PathCostSnoc(g: Matrix, p: seq<int>, x: int)
    requires IsSquare(g) && OnMatrix(g, p) && |p| >= 1 && 0 <= x < |g|
    ensures OnMatrix(g, p + [x])
    ensures PathCost(g, p + [x]) == PathCost(g, p) + g[p[|p| - 1]][x]
  {
    assert (p + [x])[..|p|] == p;
  }

  /** Joining two paths adds the edge between them. */
  lemma {:induction false} PathCostConcat(g: Matrix, a: seq<int>, b: seq<int>)
    requires IsSquare(g) && OnMatrix(g, a) && OnMatrix(g, b) && |a| >= 1 && |b| >= 1
    ensures PathCost(g, a + b) == PathCost(g, a) + g[a[|a| - 1]][b[0]] + PathCost(g, b)
    decreases |b|
  {
    if |b| == 1 {
      assert (a + b)[..|a + b| - 1] == a;
    } else {
      var b' := b[..|b| - 1];
      PathCostConcat(g, a, b');
      assert (a + b)[..|a + b| - 1] == a + b';
    }
  }

  /** `calculate_cost` does not depend on where the cycle is entered. */
  lemma CycleCostRotation(g: Matrix, r: seq<int>, k: nat)
    requires IsSquare(g) && OnMatrix(g, r) && k <= |r|
    ensures OnMatrix(g, r[k..] + r[..k])
    ensures CycleCost(g, r[k..] + r[..k]) == CycleCost(g, r)
  {
    var a, b := r[..k], r[k..];
    assert r == a + b;
    if 0 < k < |r| {
      CycleCostSwapHalves(g, a, b);
    } else {
      assert r[k..] + r[..k] == r;
    }
  }

  /** A rotation is a permutation of the route it rotates. */
  lemma RotationPermutation<T>(r: seq<T>, k: nat)
    requires k <= |r|
    ensures IsPermutation(r[k..] + r[..k], r)
  {
    assert r == r[..k] + r[k..];
  }

  lemma CycleCostSwapHalves(g: Matrix, a: seq<int>, b: seq<int>)
    requires IsSquare(g) && OnMatrix(g, a) && OnMatrix(g, b) && |a| > 0 && |b| > 0
    ensures OnMatrix(g, a + b) && OnMatrix(g, b + a)
    ensures CycleCost(g, a + b) == CycleCost(g, b + a)
  {
    var ab, ba := g[a[|a| - 1]][b[0]], g[b[|b| - 1]][a[0]];
    CycleCostCloses(g, a + b);
    assert (a + b)[|a + b| - 1] == b[|b| - 1];
    CycleCostCloses(g, b + a);
    assert (b + a)[|b + a| - 1] == a[|a| - 1];
    PathCostConcat(g, a, b);
    PathCostConcat(g, b, a);
  }

  /** Appending a new element keeps a sequence repeat-free and adds it to the elements. */
  lemma DistinctSnoc<T>(q: seq<T>, x: T)
    requires Distinct(q) && x !in q
    ensures Distinct(q + [x])
    ensures Elements(q + [x]) == Elements(q) + {x}
  {
    var t := q + [x];
    forall a, b | 0 <= a < b < |t|
      ensures t[a] != t[b]
    {
      assert t[a] == q[a];
      if b < |q| {
        assert t[b] == q[b];
      }
    }
  }

  /** In a sequence without repeats, every element occurs once. */
  lemma {:induction false} DistinctMultiplicity<T>(s: seq<T>, x: T)
    requires Distinct(s)
    ensures multiset(s)[x] == if x in s then 1 else 0
  {
    if |s| > 0 {
      var s' := s[..|s| - 1];
      assert s == s' + [s[|s| - 1]];
      DistinctMultiplicity(s', x);
      assert s[|s| - 1] !in s';
    }
  }

  /** Two repeat-free sequences with the same elements are permutations of each other. */
  lemma SameElementsPermutation<T>(p: seq<T>, s: seq<T>)
    requires Distinct(p) && Distinct(s)
    requires forall x :: x in p <==> x in s
    ensures IsPermutation(p, s)
  {
    forall x
      ensures multiset(p)[x] == multiset(s)[x]
    {
      DistinctMultiplicity(p, x);
      DistinctMultiplicity(s, x);
    }
  }

  /** A permutation of a repeat-free sequence has no repeats and the same elements. */
  lemma PermutationOfDistinct<T>(p: seq<T>, s: seq<T>)
    requires IsPermutation(p, s) && Distinct(s)
    ensures Distinct(p)
    ensures forall x :: x in p <==> x in s
  {
    forall x
      ensures x in p <==> x in s
    {
      assert x in p <==> x in multiset(p);
      assert x in s <==> x in multiset(s);
    }
    forall i, j | 0 <= i < j < |p|
      ensures p[i] != p[j]
    {
      if p[i] == p[j] {
        assert p == p[..j] + p[j..];
        assert p[i] in p[..j] && p[j] in p[j..];
        assert multiset(p)[p[i]] == multiset(p[..j])[p[i]] + multiset(p[j..])[p[i]];
        DistinctMultiplicity(s, p[i]);
      }
    }
  }

  /** Reordering a route keeps it on the matrix. */
  lemma PermutationOnMatrix(g: Matrix, p: seq<int>, s: seq<int>)
    requires IsPermutation(p, s) && OnMatrix(g, s)
    ensures OnMatrix(g, p)
  {
    forall k | 0 <= k < |p|
      ensures 0 <= p[k] < |g|
    {
      assert p[k] in multiset(p);
      var j :| 0 <= j < |s| && s[j] == p[k];
    }
  }

  /** `Range(n)` has each of 0..n-1 once. */
  lemma RangeFacts(n: nat)
    ensures Distinct(Range(n))
    ensures forall x :: x in Range(n) <==> 0 <= x < n
  {
    forall x | 0 <= x < n
      ensures x in Range(n)
    {
      assert Range(n)[x] == x;
    }
  }

  /** A route with n entries, no repeats and every entry below n is a permutation of 0..n-1. */
  lemma DistinctFillsRange(p: seq<int>, n: nat)
    requires |p| == n && Distinct(p)
    requires forall k :: 0 <= k < |p| ==> 0 <= p[k] < n
    ensures IsPermutation(p, Range(n))
  {
    RangeFacts(n);
    forall x | 0 <= x < n
      ensures x in p
    {
      if x !in p {
        var q := seq(|p|, k requires 0 <= k < |p| => if p[k] > x then p[k] - 1 else p[k]);
        assert Distinct(q) by {
          forall i, j | 0 <= i < j < |q|
            ensures q[i] != q[j]
          {
            assert p[i] != x && p[j] != x && p[i] != p[j];
          }
        }
        AtMostRange(q, n - 1);
        assert false;
      }
    }
    SameElementsPermutation(p, Range(n));
  }

  /** Pigeonhole: a repeat-free sequence of values below n has at most n entries. */
  lemma {:induction false} AtMostRange(p: seq<int>, n: nat)
    requires Distinct(p)
    requires forall k :: 0 <= k < |p| ==> 0 <= p[k] < n
    ensures |p| <= n
  {
    if |p| == 0 {
    } else if n - 1 in p {
      var i :| 0 <= i < |p| && p[i] == n - 1;
      var q := p[..i] + p[i + 1..];
      DropDistinct(p, i);
      forall k | 0 <= k < |q|
        ensures 0 <= q[k] < n - 1
      {
        var k' := if k < i then k else k + 1;
        assert q[k] == p[k'] && k' != i;
      }
      AtMostRange(q, n - 1);
    } else {
      AtMostRange(p, n - 1);
    }
  }

  /** Dropping entry i of a repeat-free sequence leaves the others, in order and still repeat-free. */
  lemma DropDistinct(p: seq<int>, i: nat)
    requires Distinct(p) && i < |p|
    ensures var q := p[..i] + p[i + 1..];
      && |q| == |p| - 1 && Distinct(q)
      && forall k :: 0 <= k < |q| ==> q[k] == (if k < i then p[k] else p[k + 1])
  {
    var q := p[..i] + p[i + 1..];
    assert forall k :: 0 <= k < |q| ==> q[k] == (if k < i then p[k] else p[k + 1]);
    forall a, b | 0 <= a < b < |q|
      ensures q[a] != q[b]
    {
      var a' := if a < i then a else a + 1;
      var b' := if b < i then b else b + 1;
      assert q[a] == p[a'] && q[b] == p[b'] && a' < b';
    }
  }
}
