/**
 * The contents of the Held-Karp tables once the fill loop has finished,
 * written as a recursion over masks, and what those contents mean: the
 * cheapest path that starts at city 0, visits exactly the cities of `mask`
 * and ends at `last`, recoverable by walking the parent entries.
 */
module HeldKarpRecurrence {
  import opened Outcomes
  import opened Tours
  import opened Bitmask

  /** One entry of the paired tables: `dp[mask][last]` and `parent[mask][last]`. */
  datatype Cell = Cell(cost: Ext, via: Option<nat>)

  /** The tables before the fill: all infinite except `dp[1][0] = 0`; no parents. */
  function Start(mask: nat, last: nat): Cell {
    if mask == 1 && last == 0 then Cell(Fin(0), None) else Cell(Inf, None)
  }

  /**
   * Entry (pred | 1 << next, next) after the row `pred` has been relaxed from
   * the sources last_visited < k, each improving the entry only when strictly cheaper.
   */
  function Relaxed(d: Matrix, pred: nat, next: nat, k: nat): Cell
    requires IsSquare(d) && next < |d| && k <= |d|
    decreases pred, k + 1
  {
    if k == 0 then Start(pred + Pow2(next), next)
    else
      var c := Relaxed(d, pred, next, k - 1);
      if Has(pred, k - 1) then
        var candidate := Final(d, pred, k - 1).cost.Plus(Fin(d[k - 1][next]));
        if candidate.Less(c.cost) then Cell(candidate, Some(k - 1)) else c
      else c
  }

  /**
   * Entry (mask, last) once the fill is done. Only the row `mask ^ (1 << last)`
   * writes to it, so it is that row's relaxation from every source.
   */
  function Final(d: Matrix, mask: nat, last: nat): Cell
    requires IsSquare(d) && last < |d|
    decreases mask, 0
  {
    if Has(mask, last) then
      HasAtLeast(mask, last);
      Relaxed(d, mask - Pow2(last), last, |d|)
    else Start(mask, last)
  }

  /** The candidate a source `last` offers to `next`: `dp[pred][last] + d[last][next]`. */
  function Candidate(d: Matrix, pred: nat, last: nat, next: nat): Ext
    requires IsSquare(d) && last < |d| && next < |d|
  {
    Final(d, pred, last).cost.Plus(Fin(d[last][next]))
  }

  /** A relaxed entry is no worse than its start value or any source seen so far. */
  lemma {:induction false} RelaxedBelow(d: Matrix, pred: nat, next: nat, k: nat)
    requires IsSquare(d) && next < |d| && k <= |d|
    ensures Relaxed(d, pred, next, k).cost.AtMost(Start(pred + Pow2(next), next).cost)
    ensures forall j :: 0 <= j < k && Has(pred, j) ==>
      Relaxed(d, pred, next, k).cost.AtMost(Candidate(d, pred, j, next))
  {
    if k > 0 {
      RelaxedBelow(d, pred, next, k - 1);
    }
  }

  /**
   * A relaxed entry either kept its start value with no parent, or its parent is
   * the smallest source whose candidate it equals, a finite one that every
   * earlier source and the start value exceed strictly.
   */
  lemma {:induction false} RelaxedShape(d: Matrix, pred: nat, next: nat, k: nat)
    requires IsSquare(d) && next < |d| && k <= |d|
    ensures var c := Relaxed(d, pred, next, k);
      c.via.None? ==> c.cost == Start(pred + Pow2(next), next).cost
    ensures var c := Relaxed(d, pred, next, k);
      c.via.Some? ==>
        && c.via.value < k
        && Has(pred, c.via.value)
        && c.cost.Fin?
        && c.cost == Candidate(d, pred, c.via.value, next)
        && c.cost.Less(Start(pred + Pow2(next), next).cost)
        && forall j :: 0 <= j < c.via.value && Has(pred, j) ==> c.cost.Less(Candidate(d, pred, j, next))
  {
    if k > 0 {
      RelaxedShape(d, pred, next, k - 1);
      RelaxedBelow(d, pred, next, k - 1);
    }
  }

  /** A finished entry's parent is a city of the mask it came from. */
  lemma ViaInMask(d: Matrix, mask: nat, last: nat)
    requires IsSquare(d) && last < |d|
    ensures Final(d, mask, last).via.Some? ==>
      && Has(mask, last)
      && Final(d, mask, last).via.value < |d|
      && Toggle(mask, last) < mask
      && Has(Toggle(mask, last), Final(d, mask, last).via.value)
  {
    if Has(mask, last) {
      HasAtLeast(mask, last);
      RelaxedShape(d, mask - Pow2(last), last, |d|);
    }
  }

  /** A start path: city 0 first, no repeats, every entry a city below n. */
  predicate SimplePath(p: seq<int>, n: nat) {
    && |p| >= 1
    && p[0] == 0
    && Distinct(p)
    && forall k :: 0 <= k < |p| ==> 0 <= p[k] < n
  }

  /**
   * Lower bound: a finished entry costs at most any path that starts at 0,
   * visits exactly the cities of `mask` and ends at the entry's city.
   */
  lemma {:induction false} FinalAtMostPath(d: Matrix, mask: nat, p: seq<int>)
    requires IsSquare(d) && mask < Pow2(|d|)
    requires SimplePath(p, |d|) && Elements(p) == Members(mask, |d|)
    ensures OnMatrix(d, p)
    ensures Final(d, mask, p[|p| - 1]).cost.AtMost(Fin(PathCost(d, p)))
    decreases |p|
  {
    var n := |d|;
    var l := p[|p| - 1];
    assert l in Elements(p);
    if |p| == 1 {
      assert mask == 1 by {
        forall i: nat | i < n
          ensures Has(mask, i) <==> Has(1, i)
        {
          StartMask(i);
          assert Has(mask, i) <==> i in Members(mask, n);
        }
        AddBitBound(0, 0, n);
        BitsDetermine(mask, 1, n);
      }
      StartMask(0);
      RelaxedBelow(d, 0, 0, n);
    } else {
      var q := p[..|p| - 1];
      var j := q[|q| - 1];
      assert Has(mask, l);
      HasAtLeast(mask, l);
      var pred := mask - Pow2(l);
      assert Elements(q) == Members(pred, n) by {
        forall i: int
          ensures i in Elements(q) <==> i in Members(pred, n)
        {
          if 0 <= i {
            RemoveBit(mask, l, i);
          }
          if i in q {
            var t :| 0 <= t < |q| && q[t] == i;
            assert p[t] == i && t < |p| - 1;
          }
          assert i in Elements(p) <==> i in q || i == l;
        }
      }
      assert SimplePath(q, n);
      FinalAtMostPath(d, pred, q);
      assert j in Elements(q);
      assert Has(pred, j);
      RelaxedBelow(d, pred, l, n);
      assert p[|p| - 2] == j;
    }
  }

  /**
   * The parent walk `Trace(mask, Some(last))`: the path the parent entries
   * record, ending at `last`.
   */
  function Trace(d: Matrix, mask: nat, last: Option<nat>): seq<int>
    requires IsSquare(d) && (last.Some? ==> last.value < |d|)
    decreases if last.Some? then 1 else 0, mask
  {
    match last
    case None => []
    case Some(l) =>
      ViaInMask(d, mask, l);
      Trace(d, Toggle(mask, l), Final(d, mask, l).via) + [l]
  }

  /**
   * Witness: a finite finished entry is the cost of the path its parent walk
   * traces, a start path over exactly the cities of `mask` ending at `last`.
   */
  lemma {:induction false} TraceRealizes(d: Matrix, mask: nat, last: nat)
    requires IsSquare(d) && last < |d| && mask < Pow2(|d|)
    requires Final(d, mask, last).cost.Fin?
    ensures var t := Trace(d, mask, Some(last));
      && SimplePath(t, |d|)
      && t[|t| - 1] == last
      && Elements(t) == Members(mask, |d|)
      && Fin(PathCost(d, t)) == Final(d, mask, last).cost
    decreases mask
  {
    var n := |d|;
    var t := Trace(d, mask, Some(last));
    assert Has(mask, last) by {
      if !Has(mask, last) {
        StartMask(last);
      }
    }
    HasAtLeast(mask, last);
    var pred := mask - Pow2(last);
    assert Toggle(mask, last) == pred;
    RelaxedShape(d, pred, last, n);
    var c := Final(d, mask, last);
    assert c == Relaxed(d, pred, last, n);
    match c.via
    case None =>
      assert mask == 1 && last == 0;
      assert t == [0];
      forall i: int
        ensures i in Members(1, n) <==> i == 0
      {
        if 0 <= i {
          StartMask(i);
        }
      }
      assert Elements(t) == {0} == Members(mask, n);
      assert PathCost(d, t) == 0 && c.cost == Fin(0);
    case Some(j) =>
      var q := Trace(d, pred, Some(j));
      TraceRealizes(d, pred, j);
      assert t == q + [last];
      WalkExtends(d, mask, last, q);
      PathCostSnoc(d, q, last);
      assert c.cost == Final(d, pred, j).cost.Plus(Fin(d[j][last]));
      assert PathCost(d, t) == PathCost(d, q) + d[j][last];
  }

  /**
   * A start path over the predecessor mask's cities, extended by the city the
   * mask adds, is a start path over the mask's cities.
   */
  lemma WalkExtends(d: Matrix, mask: nat, last: nat, q: seq<int>)
    requires IsSquare(d) && last < |d| && Has(mask, last) && mask >= Pow2(last)
    requires SimplePath(q, |d|) && Elements(q) == Members(mask - Pow2(last), |d|)
    ensures SimplePath(q + [last], |d|)
    ensures Elements(q + [last]) == Members(mask, |d|)
  {
    var n := |d|;
    WithToggleMembers(mask, last, n);
    assert Toggle(mask, last) == mask - Pow2(last);
    assert last in Members(mask, n);
    assert last !in q by {
      assert last !in Elements(q);
    }
    DistinctSnoc(q, last);
  }

  /**
   * `min_cost` and `end_city` after the closing loop has tried every last city
   * 1 <= last < k, replacing only on a strictly cheaper closed tour.
   */
  function Closing(d: Matrix, k: nat): Cell
    requires IsSquare(d) && k <= |d|
  {
    if k <= 1 then Cell(Inf, None)
    else
      var c := Closing(d, k - 1);
      var candidate := ClosedCost(d, k - 1);
      if candidate.Less(c.cost) then Cell(candidate, Some(k - 1)) else c
  }

  /** `dp[full_mask][last] + distances[last][0]`: the best tour whose final stop is `last`. */
  function ClosedCost(d: Matrix, last: nat): Ext
    requires IsSquare(d) && last < |d|
  {
    Final(d, Full(|d|), last).cost.Plus(Fin(d[last][0]))
  }

  /**
   * `min_cost` is the least closed cost over 1 <= last < k; `end_city` is the
   * smallest last reaching it, and none when no last is tried.
   */
  lemma {:induction false} ClosingIsLeast(d: Matrix, k: nat)
    requires IsSquare(d) && k <= |d|
    ensures forall l :: 1 <= l < k ==> Closing(d, k).cost.AtMost(ClosedCost(d, l))
    ensures Closing(d, k).via.None? ==> Closing(d, k).cost == Inf
    ensures Closing(d, k).via.Some? ==>
      && 1 <= Closing(d, k).via.value < k
      && Closing(d, k).cost == ClosedCost(d, Closing(d, k).via.value)
      && forall l :: 1 <= l < Closing(d, k).via.value ==> Closing(d, k).cost.Less(ClosedCost(d, l))
  {
    if k > 1 {
      ClosingIsLeast(d, k - 1);
    }
  }
}
