/**
 * `brute_force`: every ordering of the cities, enumerated the way
 * `itertools.permutations` enumerates them, with the first cheapest one kept.
 */
module BruteForce {
  import opened Outcomes
  import opened Tours

  /** `s` without the entry at position i. */
  function Remove<T>(s: seq<T>, i: nat): (r: seq<T>)
    requires i < |s|
    ensures |r| == |s| - 1
  {
    s[..i] + s[i + 1..]
  }

  /** Puts `x` in front of every sequence of `ps`, keeping their order. */
  function Prepend<T>(x: T, ps: seq<seq<T>>): (r: seq<seq<T>>)
    ensures |r| == |ps|
    ensures forall k :: 0 <= k < |ps| ==> r[k] == [x] + ps[k]
  {
    seq(|ps|, k requires 0 <= k < |ps| => [x] + ps[k])
  }

  /**
   * `itertools.permutations(s)`: orderings of the positions of `s` in
   * lexicographic order, so the first entry comes first, then orderings that
   * start with the second, and so on; the empty input has one empty ordering.
   */
  function Permutations<T>(s: seq<T>): seq<seq<T>>
    decreases |s|, 1
  {
    if |s| == 0 then [[]] else PermsFrom(s, 0)
  }

  /** The orderings of `s` whose first entry is taken from a position at or after i. */
  function PermsFrom<T>(s: seq<T>, i: nat): seq<seq<T>>
    requires i <= |s|
    decreases |s|, 0, |s| - i
  {
    if i == |s| then []
    else Prepend(s[i], Permutations(Remove(s, i))) + PermsFrom(s, i + 1)
  }

  /** Taking one entry out and putting it in front keeps the multiset. */
  lemma RemoveMultiset<T>(s: seq<T>, i: nat)
    requires i < |s|
    ensures multiset([s[i]] + Remove(s, i)) == multiset(s)
  {
    assert s == s[..i] + [s[i]] + s[i + 1..];
  }

  /** Soundness: everything enumerated is a permutation of the input. */
  lemma {:induction false} PermutationsSound<T>(s: seq<T>)
    ensures forall k :: 0 <= k < |Permutations(s)| ==> IsPermutation(Permutations(s)[k], s)
    decreases |s|, 1
  {
    if |s| > 0 {
      PermsFromSound(s, 0);
    }
  }

  lemma {:induction false} PermsFromSound<T>(s: seq<T>, i: nat)
    requires i <= |s|
    ensures forall k :: 0 <= k < |PermsFrom(s, i)| ==> IsPermutation(PermsFrom(s, i)[k], s)
    decreases |s|, 0, |s| - i
  {
    if i < |s| {
      var rest := Permutations(Remove(s, i));
      PermutationsSound(Remove(s, i));
      PermsFromSound(s, i + 1);
      RemoveMultiset(s, i);
      var head := Prepend(s[i], rest);
      forall k | 0 <= k < |head|
        ensures IsPermutation(head[k], s)
      {
        assert multiset(head[k]) == multiset([s[i]]) + multiset(rest[k]);
      }
    }
  }

  /** Completeness: every permutation of the input is enumerated. */
  lemma {:induction false} PermutationsComplete<T>(s: seq<T>, p: seq<T>)
    requires IsPermutation(p, s)
    ensures p in Permutations(s)
    decreases |s|
  {
    if |s| == 0 {
      assert |p| == |multiset(p)| == 0;
    } else {
      assert |p| == |multiset(p)| == |s|;
      assert p[0] in multiset(s);
      var i :| 0 <= i < |s| && s[i] == p[0];
      var tail := p[1..];
      RemoveMultiset(s, i);
      assert p == [p[0]] + tail;
      assert IsPermutation(tail, Remove(s, i)) by {
        assert multiset(p) == multiset([p[0]]) + multiset(tail);
        assert multiset([s[i]] + Remove(s, i)) == multiset([s[i]]) + multiset(Remove(s, i));
        assert multiset(tail) == multiset(p) - multiset([p[0]]);
        assert multiset(Remove(s, i)) == multiset(s) - multiset([s[i]]);
      }
      PermutationsComplete(Remove(s, i), tail);
      var rest := Permutations(Remove(s, i));
      var k :| 0 <= k < |rest| && rest[k] == tail;
      assert Prepend(s[i], rest)[k] == p;
      PermsFromCovers(s, 0, i, k);
    }
  }

  /** `PermsFrom(s, i)` lists the orderings starting at position j, for every j >= i. */
  lemma {:induction false} PermsFromCovers<T>(s: seq<T>, i: nat, j: nat, k: nat)
    requires i <= j < |s| && k < |Permutations(Remove(s, j))|
    ensures [s[j]] + Permutations(Remove(s, j))[k] in PermsFrom(s, i)
    decreases j - i
  {
    var head := Prepend(s[i], Permutations(Remove(s, i)));
    if i == j {
      assert PermsFrom(s, i)[k] == head[k];
    } else {
      PermsFromCovers(s, i + 1, j, k);
      var x := [s[j]] + Permutations(Remove(s, j))[k];
      var m :| 0 <= m < |PermsFrom(s, i + 1)| && PermsFrom(s, i + 1)[m] == x;
      assert PermsFrom(s, i)[|head| + m] == x;
    }
  }

  /**
   * `brute_force(cities, graph)`: scans the orderings in enumeration order and
   * replaces the best only on a strictly smaller `calculate_cost`. The ghost
   * `at` is the position of the kept ordering in the enumeration.
   */
  method Search(g: Matrix, cities: seq<int>) returns (best: Tour, ghost at: nat)
    requires IsSquare(g) && OnMatrix(g, cities)
    ensures IsPermutation(best.route, cities) && OnMatrix(g, best.route)
    ensures best.cost == CycleCost(g, best.route)
    ensures forall p :: IsPermutation(p, cities) && OnMatrix(g, p) ==> best.cost <= CycleCost(g, p)
    ensures at < |Permutations(cities)| && best.route == Permutations(cities)[at]
    ensures forall j :: 0 <= j < at ==> OnMatrix(g, Permutations(cities)[j]) && best.cost < CycleCost(g, Permutations(cities)[j])
  {
    var perms := Permutations(cities);
    PermutationsSound(cities);
    PermutationsComplete(cities, cities);
    forall k | 0 <= k < |perms|
      ensures OnMatrix(g, perms[k])
    {
      PermutationOnMatrix(g, perms[k], cities);
    }
    var minCost: Ext := Inf;
    var optimal: Option<seq<int>> := None;
    at := 0;
    for k := 0 to |perms|
      invariant optimal.None? <==> k == 0
      invariant optimal.None? ==> minCost == Inf
      invariant optimal.Some? ==>
        && at < k && optimal.value == perms[at]
        && minCost == Fin(CycleCost(g, perms[at]))
        && (forall j :: 0 <= j < k ==> minCost.AtMost(Fin(CycleCost(g, perms[j]))))
        && (forall j :: 0 <= j < at ==> minCost.Less(Fin(CycleCost(g, perms[j]))))
    {
      var cost := CycleCost(g, perms[k]);
      if Fin(cost).Less(minCost) {
        minCost, optimal := Fin(cost), Some(perms[k]);
        at := k;
      }
    }
    best := Tour(optimal.value, minCost.v);
    forall p | IsPermutation(p, cities) && OnMatrix(g, p)
      ensures best.cost <= CycleCost(g, p)
    {
      PermutationsComplete(cities, p);
    }
  }
}
