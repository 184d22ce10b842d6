/**
 * `tsp_dynamic_programming`: the Held-Karp bitmask dynamic program over a
 * given distance matrix. The tables are filled in ascending mask order, the
 * cheapest closing edge is chosen, and the tour is rebuilt by walking the
 * parent table.
 */
module HeldKarp {
  import opened Outcomes
  import opened Tours
  import opened Bitmask
  import opened HeldKarpRecurrence

  /** The solver's answer: the tour as city labels, and `min_cost`. */
  datatype Solution<T> = Solution(tour: seq<T>, minCost: Ext)

  /** Maps a tour of city indices to the cities' labels, as `cities[last_visited]` does. */
  function Label<T>(cities: seq<T>, order: seq<int>): (r: seq<T>)
    requires forall k :: 0 <= k < |order| ==> 0 <= order[k] < |cities|
    ensures |r| == |order|
    ensures forall k :: 0 <= k < |order| ==> r[k] == cities[order[k]]
  {
    seq(|order|, k requires 0 <= k < |order| => cities[order[k]])
  }

  /**
   * What the tables hold part-way through the fill: rows below `m` have been
   * relaxed completely, row `m` from the sources below `last` (and from `last`
   * itself for the targets below `next`), and rows above `m` not at all.
   */
  function Stage(d: Matrix, mask: nat, city: nat, m: nat, last: nat, next: nat): Cell
    requires IsSquare(d) && city < |d| && last <= |d| && (next > 0 ==> last < |d|)
  {
    if !Has(mask, city) then Start(mask, city)
    else
      HasAtLeast(mask, city);
      var pred := mask - Pow2(city);
      var k := if pred < m then |d| else if pred > m then 0 else if city < next then last + 1 else last;
      Relaxed(d, pred, city, k)
  }

  ghost predicate TablesAt(d: Matrix, dp: seq<seq<Ext>>, parent: seq<seq<Option<nat>>>,
                           m: nat, last: nat, next: nat)
    requires IsSquare(d) && last <= |d| && (next > 0 ==> last < |d|)
  {
    && |dp| == Pow2(|d|) && |parent| == Pow2(|d|)
    && (forall mask :: 0 <= mask < Pow2(|d|) ==> |dp[mask]| == |d| && |parent[mask]| == |d|)
    && forall mask, city :: 0 <= mask < Pow2(|d|) && 0 <= city < |d| ==>
         dp[mask][city] == Stage(d, mask, city, m, last, next).cost
         && parent[mask][city] == Stage(d, mask, city, m, last, next).via
  }

  /** Step 1: every entry infinite except `dp[1][0] = 0`, and no parents. */
  method InitTables(d: Matrix) returns (dp: seq<seq<Ext>>, parent: seq<seq<Option<nat>>>)
    requires IsSquare(d) && |d| >= 1
    ensures TablesAt(d, dp, parent, 0, 0, 0)
  {
    var n := |d|;
    var rows := Pow2(n);
    dp := seq(rows, _ => seq(n, _ => Inf));
    parent := seq(rows, _ => seq(n, _ => None));
    AddBitBound(0, 0, n);
    dp := dp[1 := dp[1][0 := Fin(0)]];
    forall mask, city | 0 <= mask < rows && 0 <= city < n
      ensures dp[mask][city] == Stage(d, mask, city, 0, 0, 0).cost
      ensures parent[mask][city] == Stage(d, mask, city, 0, 0, 0).via
    {
      StartMask(city);
      assert dp[mask][city] == (if mask == 1 && city == 0 then Fin(0) else Inf);
      assert parent[mask][city] == None;
      StageAtStart(d, mask, city);
    }
  }

  /**
   * Steps 1 and 2: initialise both tables and fill them in ascending mask
   * order; on exit every entry holds the recurrence's final value.
   */
  method FillTables(d: Matrix) returns (dp: seq<seq<Ext>>, parent: seq<seq<Option<nat>>>)
    requires IsSquare(d) && |d| >= 1
    ensures |dp| == Pow2(|d|) && |parent| == Pow2(|d|)
    ensures forall mask :: 0 <= mask < Pow2(|d|) ==> |dp[mask]| == |d| && |parent[mask]| == |d|
    ensures forall mask, last :: 0 <= mask < Pow2(|d|) && 0 <= last < |d| ==>
      dp[mask][last] == Final(d, mask, last).cost && parent[mask][last] == Final(d, mask, last).via
  {
    var n := |d|;
    dp, parent := InitTables(d);
    for mask := 0 to Pow2(n)
      invariant TablesAt(d, dp, parent, mask, 0, 0)
    {
      for last := 0 to n
        invariant TablesAt(d, dp, parent, mask, last, 0)
      {
        if !Has(mask, last) {
          SkipSource(d, dp, parent, mask, last);
          continue;
        }
        for next := 0 to n
          invariant TablesAt(d, dp, parent, mask, last, next)
        {
          if Has(mask, next) {
            SkipPresent(d, dp, parent, mask, last, next);
            continue;
          }
          dp, parent := RelaxEdge(d, dp, parent, mask, last, next);
        }
        NextSource(d, dp, parent, mask, last);
      }
      NextRow(d, dp, parent, mask);
    }
    TablesDone(d, dp, parent);
  }

  /**
   * The innermost step: extend the best path over `mask` ending at `last` by
   * the edge to `next`, and keep it when strictly cheaper than the entry for
   * the enlarged mask.
   */
  method RelaxEdge(d: Matrix, dp: seq<seq<Ext>>, parent: seq<seq<Option<nat>>>, mask: nat, last: nat, next: nat)
    returns (dp': seq<seq<Ext>>, parent': seq<seq<Option<nat>>>)
    requires IsSquare(d) && last < |d| && next < |d| && Has(mask, last) && !Has(mask, next)
    requires mask < Pow2(|d|) && TablesAt(d, dp, parent, mask, last, next)
    ensures TablesAt(d, dp', parent', mask, last, next + 1)
  {
    AddBitBound(mask, next, |d|);
    var newMask := With(mask, next);
    var newDist := dp[mask][last].Plus(Fin(d[last][next]));
    dp', parent' := dp, parent;
    if newDist.Less(dp[newMask][next]) {
      dp' := dp[newMask := dp[newMask][next := newDist]];
      parent' := parent[newMask := parent[newMask][next := Some(last)]];
    }
    Relax(d, dp, parent, dp', parent', mask, last, next);
  }

  /** A source outside the row's mask relaxes nothing. */
  lemma SkipSource(d: Matrix, dp: seq<seq<Ext>>, parent: seq<seq<Option<nat>>>, m: nat, last: nat)
    requires IsSquare(d) && last < |d| && !Has(m, last)
    requires TablesAt(d, dp, parent, m, last, 0)
    ensures TablesAt(d, dp, parent, m, last + 1, 0)
  {
    forall mask, city | 0 <= mask < Pow2(|d|) && 0 <= city < |d|
      ensures Stage(d, mask, city, m, last, 0) == Stage(d, mask, city, m, last + 1, 0)
    {
    }
  }

  /** After every target, the source `last` is done for the whole row. */
  lemma NextSource(d: Matrix, dp: seq<seq<Ext>>, parent: seq<seq<Option<nat>>>, m: nat, last: nat)
    requires IsSquare(d) && last < |d|
    requires TablesAt(d, dp, parent, m, last, |d|)
    ensures TablesAt(d, dp, parent, m, last + 1, 0)
  {
    forall mask, city | 0 <= mask < Pow2(|d|) && 0 <= city < |d|
      ensures Stage(d, mask, city, m, last, |d|) == Stage(d, mask, city, m, last + 1, 0)
    {
    }
  }

  /** After every source, row `m` is final and row `m + 1` is next. */
  lemma NextRow(d: Matrix, dp: seq<seq<Ext>>, parent: seq<seq<Option<nat>>>, m: nat)
    requires IsSquare(d)
    requires TablesAt(d, dp, parent, m, |d|, 0)
    ensures TablesAt(d, dp, parent, m + 1, 0, 0)
  {
    forall mask, city | 0 <= mask < Pow2(|d|) && 0 <= city < |d|
      ensures Stage(d, mask, city, m, |d|, 0) == Stage(d, mask, city, m + 1, 0, 0)
    {
    }
  }

  /** Once every row has been relaxed, every entry is final. */
  lemma TablesDone(d: Matrix, dp: seq<seq<Ext>>, parent: seq<seq<Option<nat>>>)
    requires IsSquare(d)
    requires TablesAt(d, dp, parent, Pow2(|d|), 0, 0)
    ensures forall mask, last :: 0 <= mask < Pow2(|d|) && 0 <= last < |d| ==>
      dp[mask][last] == Final(d, mask, last).cost && parent[mask][last] == Final(d, mask, last).via
  {
    forall mask, last | 0 <= mask < Pow2(|d|) && 0 <= last < |d|
      ensures Stage(d, mask, last, Pow2(|d|), 0, 0) == Final(d, mask, last)
    {
    }
  }

  /** Before any row is relaxed, every entry holds its start value. */
  lemma StageAtStart(d: Matrix, mask: nat, city: nat)
    requires IsSquare(d) && city < |d|
    ensures Stage(d, mask, city, 0, 0, 0) == Start(mask, city)
  {
    if Has(mask, city) {
      HasAtLeast(mask, city);
      var pred := mask - Pow2(city);
      assert Stage(d, mask, city, 0, 0, 0) == Relaxed(d, pred, city, 0);
      assert pred + Pow2(city) == mask;
    }
  }

  /** A target already in the row's mask is skipped; no entry's stage moves. */
  lemma SkipPresent(d: Matrix, dp: seq<seq<Ext>>, parent: seq<seq<Option<nat>>>, m: nat, last: nat, next: nat)
    requires IsSquare(d) && last < |d| && next < |d| && Has(m, next)
    requires TablesAt(d, dp, parent, m, last, next)
    ensures TablesAt(d, dp, parent, m, last, next + 1)
  {
    forall mask, city | 0 <= mask < Pow2(|d|) && 0 <= city < |d| && Has(mask, city)
      ensures Stage(d, mask, city, m, last, next) == Stage(d, mask, city, m, last, next + 1)
    {
      RemoveBit(mask, city, city);
    }
  }

  /** The source entry a transition reads is already final. */
  lemma ReadFinished(d: Matrix, dp: seq<seq<Ext>>, parent: seq<seq<Option<nat>>>, m: nat, last: nat, next: nat)
    requires IsSquare(d) && last < |d| && next < |d| && Has(m, last) && m < Pow2(|d|)
    requires TablesAt(d, dp, parent, m, last, next)
    ensures dp[m][last] == Final(d, m, last).cost
  {
    HasAtLeast(m, last);
  }

  /**
   * One transition `mask -> mask | 1 << next` from `last` moves exactly the
   * entry (mask | 1 << next, next) one source further; every other entry keeps its stage.
   */
  lemma Relax(d: Matrix, dp0: seq<seq<Ext>>, parent0: seq<seq<Option<nat>>>,
              dp1: seq<seq<Ext>>, parent1: seq<seq<Option<nat>>>, m: nat, last: nat, next: nat)
    requires IsSquare(d) && last < |d| && next < |d| && Has(m, last) && !Has(m, next)
    requires m < Pow2(|d|) && m + Pow2(next) < Pow2(|d|)
    requires TablesAt(d, dp0, parent0, m, last, next)
    requires var t := m + Pow2(next);
      var candidate := dp0[m][last].Plus(Fin(d[last][next]));
      if candidate.Less(dp0[t][next]) then
        dp1 == dp0[t := dp0[t][next := candidate]] && parent1 == parent0[t := parent0[t][next := Some(last)]]
      else
        dp1 == dp0 && parent1 == parent0
    ensures TablesAt(d, dp1, parent1, m, last, next + 1)
  {
    var t := m + Pow2(next);
    ReadFinished(d, dp0, parent0, m, last, next);
    StageTarget(d, m, last, next);
    var before := Relaxed(d, m, next, last);
    assert dp0[t][next] == before.cost && parent0[t][next] == before.via;
    assert dp1[t][next] == Relaxed(d, m, next, last + 1).cost && parent1[t][next] == Relaxed(d, m, next, last + 1).via by {
      var candidate := Candidate(d, m, last, next);
      assert dp0[m][last].Plus(Fin(d[last][next])) == candidate;
    }
    forall mask, city | 0 <= mask < Pow2(|d|) && 0 <= city < |d|
      ensures dp1[mask][city] == Stage(d, mask, city, m, last, next + 1).cost
      ensures parent1[mask][city] == Stage(d, mask, city, m, last, next + 1).via
    {
      if mask != t || city != next {
        StageOthers(d, mask, city, m, last, next);
        UpdateElsewhere(dp0, t, next, dp1[t][next], mask, city);
        UpdateElsewhere(parent0, t, next, parent1[t][next], mask, city);
      }
    }
  }

  /** Writing one entry of a table leaves every other entry alone. */
  lemma UpdateElsewhere<T>(a: seq<seq<T>>, t: int, j: int, v: T, mask: int, city: int)
    requires 0 <= t < |a| && 0 <= j < |a[t]| && 0 <= mask < |a| && 0 <= city < |a[mask]|
    requires mask != t || city != j
    ensures a[t := a[t][j := v]][mask][city] == a[mask][city]
  {
  }

  /** The transition's target entry moves from source `last` to source `last + 1`. */
  lemma StageTarget(d: Matrix, m: nat, last: nat, next: nat)
    requires IsSquare(d) && last < |d| && next < |d| && !Has(m, next)
    ensures Has(m + Pow2(next), next)
    ensures Stage(d, m + Pow2(next), next, m, last, next) == Relaxed(d, m, next, last)
    ensures Stage(d, m + Pow2(next), next, m, last, next + 1) == Relaxed(d, m, next, last + 1)
    ensures Has(m, last) ==> (Relaxed(d, m, next, last + 1) ==
      var c := Relaxed(d, m, next, last);
      if Candidate(d, m, last, next).Less(c.cost) then Cell(Candidate(d, m, last, next), Some(last)) else c)
  {
    AddBit(m, next, next);
  }

  /** Every entry other than the transition's target keeps its stage. */
  lemma StageOthers(d: Matrix, mask: nat, city: nat, m: nat, last: nat, next: nat)
    requires IsSquare(d) && last < |d| && next < |d| && city < |d|
    requires mask != m + Pow2(next) || city != next
    ensures Stage(d, mask, city, m, last, next) == Stage(d, mask, city, m, last, next + 1)
  {
  }

  /** Step 3: try every final city 1 <= last < n, keeping the first strictly cheaper closed tour. */
  method ChooseClosing(d: Matrix, dp: seq<seq<Ext>>) returns (minCost: Ext, endCity: Option<nat>)
    requires IsSquare(d) && |d| >= 1 && |dp| == Pow2(|d|)
    requires |dp[Full(|d|)]| == |d|
    requires forall last :: 0 <= last < |d| ==> dp[Full(|d|)][last] == Final(d, Full(|d|), last).cost
    ensures forall l :: 1 <= l < |d| ==> minCost.AtMost(ClosedCost(d, l))
    ensures endCity.None? ==> minCost == Inf
    ensures endCity.Some? ==>
      && 1 <= endCity.value < |d|
      && minCost == ClosedCost(d, endCity.value)
      && forall l :: 1 <= l < endCity.value ==> minCost.Less(ClosedCost(d, l))
    ensures Cell(minCost, endCity) == Closing(d, |d|)
  {
    var n := |d|;
    var full := Full(n);
    minCost, endCity := Inf, None;
    for last := 1 to n
      invariant Cell(minCost, endCity) == Closing(d, last)
    {
      var cost := dp[full][last].Plus(Fin(d[last][0]));
      if cost.Less(minCost) {
        minCost, endCity := cost, Some(last);
      }
    }
    ClosingIsLeast(d, n);
  }

  /**
   * Steps 4 and 5: walk the parent table back from `end_city`, toggling each
   * visited city out of the mask, then reverse; the result is the parent walk
   * read forwards, as city labels.
   */
  method Reconstruct<T>(d: Matrix, cities: seq<T>, parent: seq<seq<Option<nat>>>, endCity: Option<nat>)
    returns (tour: seq<T>)
    requires IsSquare(d) && |d| >= 1 && |cities| == |d| && |parent| == Pow2(|d|)
    requires forall mask :: 0 <= mask < Pow2(|d|) ==> |parent[mask]| == |d|
    requires forall mask, last :: 0 <= mask < Pow2(|d|) && 0 <= last < |d| ==> parent[mask][last] == Final(d, mask, last).via
    requires endCity.Some? ==> endCity.value < |d|
    ensures OnMatrix(d, Trace(d, Full(|d|), endCity))
    ensures tour == Label(cities, Trace(d, Full(|d|), endCity))
  {
    var n := |d|;
    var mask: nat := Full(n);
    var last: Option<nat> := endCity;
    var collected: seq<T> := [];
    ghost var walked: seq<int> := [];
    if last.Some? {
      FullHasAll(n, last.value);
    }
    while last.Some?
      invariant mask < Pow2(n)
      invariant last.Some? ==> last.value < n && Has(mask, last.value)
      invariant OnMatrix(d, walked) && collected == Label(cities, walked)
      invariant Trace(d, Full(n), endCity) == Trace(d, mask, last) + Reverse(walked)
      decreases if last.Some? then 1 else 0, mask
    {
      var l := last.value;
      collected := collected + [cities[l]];
      var newLast := parent[mask][l];
      ViaInMask(d, mask, l);
      WalkBack(d, Trace(d, Full(n), endCity), mask, l, walked);
      LabelSnoc(d, cities, walked, l);
      walked := walked + [l];
      mask := Toggle(mask, l);
      last := newLast;
    }
    ReverseLabel(cities, walked);
    tour := Reverse(collected);
  }

  /** One step back along the parent walk moves its last city to the front of the reversed part. */
  lemma WalkBack(d: Matrix, whole: seq<int>, mask: nat, l: nat, walked: seq<int>)
    requires IsSquare(d) && l < |d|
    requires whole == Trace(d, mask, Some(l)) + Reverse(walked)
    ensures Final(d, mask, l).via.Some? ==> Final(d, mask, l).via.value < |d|
    ensures whole == Trace(d, Toggle(mask, l), Final(d, mask, l).via) + Reverse(walked + [l])
  {
    ViaInMask(d, mask, l);
    ReverseSnoc(walked, l);
    var front := Trace(d, Toggle(mask, l), Final(d, mask, l).via);
    assert Trace(d, mask, Some(l)) == front + [l];
    assert front + [l] + Reverse(walked) == front + ([l] + Reverse(walked));
  }

  /** Labelling one more city appends its label. */
  lemma LabelSnoc<T>(d: Matrix, cities: seq<T>, walked: seq<int>, l: nat)
    requires |cities| == |d| && l < |d| && OnMatrix(d, walked)
    ensures OnMatrix(d, walked + [l])
    ensures Label(cities, walked + [l]) == Label(cities, walked) + [cities[l]]
  {
  }

  lemma ReverseSnoc<T>(s: seq<T>, x: T)
    ensures Reverse(s + [x]) == [x] + Reverse(s)
  {
    assert (s + [x])[..|s|] == s;
  }

  lemma ReverseLabel<T>(cities: seq<T>, order: seq<int>)
    requires forall k :: 0 <= k < |order| ==> 0 <= order[k] < |cities|
    ensures Reverse(Label(cities, order)) == Label(cities, Reverse(order))
  {
    var a, b := Reverse(Label(cities, order)), Label(cities, Reverse(order));
    forall k | 0 <= k < |order|
      ensures a[k] == b[k]
    {
      ReverseOfLabels(cities, order, k);
      LabelsOfReverse(cities, order, k);
    }
  }

  /** Position k of the reversed labels is the label of the city k places from the end. */
  lemma ReverseOfLabels<T>(cities: seq<T>, order: seq<int>, k: nat)
    requires forall j :: 0 <= j < |order| ==> 0 <= order[j] < |cities|
    requires k < |order|
    ensures Reverse(Label(cities, order))[k] == cities[order[|order| - 1 - k]]
  {
    var labels := Label(cities, order);
    assert Reverse(labels)[k] == labels[|order| - 1 - k];
  }

  /** Position k of the labels of the reversed order is the label of the city k places from the end. */
  lemma LabelsOfReverse<T>(cities: seq<T>, order: seq<int>, k: nat)
    requires forall j :: 0 <= j < |order| ==> 0 <= order[j] < |cities|
    requires k < |order|
    ensures Label(cities, Reverse(order))[k] == cities[order[|order| - 1 - k]]
  {
    var back := Reverse(order);
    assert back[k] == order[|order| - 1 - k];
  }

  /**
   * `tsp_dynamic_programming` on a loaded problem: `d` is the distance matrix
   * and `cities` the labels in matrix order. The ghost `order` is the tour as
   * matrix indices.
   */
  method Solve<T>(d: Matrix, cities: seq<T>) returns (r: Result<Solution<T>>, ghost order: seq<int>)
    requires IsSquare(d) && |cities| == |d|
    ensures |d| == 0 <==> r == Err(IndexError)
    ensures |d| == 1 ==> r == Ok(Solution([cities[0]], Inf))
    ensures |d| >= 2 ==>
      && r.Ok?
      && |order| == |d| + 1 && order[0] == 0 && order[|d|] == 0
      && OnMatrix(d, order)
      && IsPermutation(order[..|d|], Range(|d|))
      && r.value.tour == Label(cities, order)
      && r.value.minCost == Fin(CycleCost(d, order[..|d|]))
      && r.value.minCost == Fin(PathCost(d, order))
    ensures |d| >= 2 ==> forall p :: |p| == |d| && IsPermutation(p, Range(|d|)) && OnMatrix(d, p) ==>
      r.value.minCost.AtMost(Fin(CycleCost(d, p)))
    ensures |d| >= 2 ==> forall p ::
      (|p| == |d| && IsPermutation(p, Range(|d|)) && OnMatrix(d, p) && p[0] == 0 && p[|d| - 1] < order[|d| - 1]) ==>
      r.value.minCost.Less(Fin(CycleCost(d, p)))
  {
    var n := |d|;
    if n == 0 {
      // `dp` has the single row `[]`, so `dp[1][0] = 0` is out of range
      return Err(IndexError), [];
    }
    var dp, parent := FillTables(d);
    assert Full(n) < Pow2(n);
    var minCost, endCity := ChooseClosing(d, dp);
    var back := Reconstruct(d, cities, parent, endCity);
    var tour := back + [cities[0]];
    order := Trace(d, Full(n), endCity) + [0];
    r := Ok(Solution(tour, minCost));
    if n == 1 {
      assert endCity.None? && minCost == Inf;
      assert back == [];
      assert tour == [cities[0]];
      return;
    }
    Answer(d, cities, minCost, endCity, back);
    AnswerLeast(d, minCost);
    AnswerFirst(d, minCost, endCity.value);
  }

  /**
   * Step 5 with two or more cities: the tour of labels closed back at the
   * first city, and `min_cost`, meet every postcondition of `Solve`.
   */
  lemma Answer<T>(d: Matrix, cities: seq<T>, minCost: Ext, endCity: Option<nat>, back: seq<T>)
    requires IsSquare(d) && |d| >= 2 && |cities| == |d|
    requires Cell(minCost, endCity) == Closing(d, |d|)
    requires endCity.Some? ==> endCity.value < |d|
    requires OnMatrix(d, Trace(d, Full(|d|), endCity))
    requires back == Label(cities, Trace(d, Full(|d|), endCity))
    ensures var order := Trace(d, Full(|d|), endCity) + [0];
      && |order| == |d| + 1 && order[0] == 0 && order[|d|] == 0
      && OnMatrix(d, order)
      && IsPermutation(order[..|d|], Range(|d|))
      && back + [cities[0]] == Label(cities, order)
      && minCost == Fin(CycleCost(d, order[..|d|]))
      && minCost == Fin(PathCost(d, order))
  {
    var t := Trace(d, Full(|d|), endCity);
    ClosingTour(d);
    HomeAppended(d, t);
    LabelSnoc(d, cities, t, 0);
  }

  /** No tour is cheaper than `min_cost`. */
  lemma AnswerLeast(d: Matrix, minCost: Ext)
    requires IsSquare(d) && |d| >= 2
    requires minCost == Closing(d, |d|).cost
    ensures forall p :: |p| == |d| && IsPermutation(p, Range(|d|)) && OnMatrix(d, p) ==>
      minCost.AtMost(Fin(CycleCost(d, p)))
  {
    forall p | |p| == |d| && IsPermutation(p, Range(|d|)) && OnMatrix(d, p)
      ensures minCost.AtMost(Fin(CycleCost(d, p)))
    {
      ClosingOptimal(d, p);
    }
  }

  /** Every tour from city 0 that ends at a smaller city than the chosen end city is strictly dearer than `min_cost`. */
  lemma AnswerFirst(d: Matrix, minCost: Ext, e: nat)
    requires IsSquare(d) && |d| >= 2
    requires minCost == Closing(d, |d|).cost && Closing(d, |d|).via == Some(e)
    ensures forall p :: |p| == |d| && IsPermutation(p, Range(|d|)) && OnMatrix(d, p) && p[0] == 0 && p[|d| - 1] < e ==>
      minCost.Less(Fin(CycleCost(d, p)))
  {
    forall p | |p| == |d| && IsPermutation(p, Range(|d|)) && OnMatrix(d, p) && p[0] == 0 && p[|d| - 1] < e
      ensures minCost.Less(Fin(CycleCost(d, p)))
    {
      ClosingOptimal(d, p);
    }
  }

  /** Closing a walk by returning to city 0 keeps it on the matrix and leaves the walk as its prefix. */
  lemma HomeAppended(d: Matrix, t: seq<int>)
    requires |d| >= 1 && OnMatrix(d, t)
    ensures OnMatrix(d, t + [0])
    ensures (t + [0])[..|t|] == t && |t + [0]| == |t| + 1 && (t + [0])[|t|] == 0
    ensures |t| > 0 ==> (t + [0])[0] == t[0]
  {
  }

  /** Every city below n is in the full mask and in `Range(n)`. */
  lemma FullMembers(n: nat)
    ensures Members(Full(n), n) == Elements(Range(n))
  {
    RangeFacts(n);
    forall i: int | 0 <= i < n
      ensures Has(Full(n), i)
    {
      FullHasAll(n, i);
    }
  }

  /** With two or more cities some closed tour is finite, so an end city is chosen. */
  lemma ClosingFinite(d: Matrix)
    requires IsSquare(d) && |d| >= 2
    ensures Closing(d, |d|).via.Some? && Closing(d, |d|).cost.Fin?
  {
    var n := |d|;
    RangeFacts(n);
    FullMembers(n);
    PowMonotone(n, n);
    assert SimplePath(Range(n), n);
    FinalAtMostPath(d, Full(n), Range(n));
    ClosingIsLeast(d, n);
    assert ClosedCost(d, n - 1).Fin?;
  }

  /**
   * The chosen end city's parent walk is a tour from city 0 through every city,
   * and `min_cost` is its `calculate_cost`.
   */
  lemma ClosingTour(d: Matrix)
    requires IsSquare(d) && |d| >= 2
    ensures Closing(d, |d|).via.Some? && Closing(d, |d|).via.value < |d|
    ensures var t := Trace(d, Full(|d|), Closing(d, |d|).via);
      && |t| == |d| && t[0] == 0 && t[|d| - 1] == Closing(d, |d|).via.value
      && OnMatrix(d, t) && IsPermutation(t, Range(|d|))
      && Closing(d, |d|).cost == Fin(CycleCost(d, t))
      && Closing(d, |d|).cost == Fin(PathCost(d, t + [0]))
  {
    var n := |d|;
    ClosingFinite(d);
    ClosingIsLeast(d, n);
    var e := Closing(d, n).via.value;
    var t := Trace(d, Full(n), Some(e));
    assert Final(d, Full(n), e).cost.Fin?;
    assert Full(n) < Pow2(n);
    TraceRealizes(d, Full(n), e);
    TraceSpans(d, t);
    assert t[0] == 0 && t[n - 1] == e;
    CycleCostCloses(d, t);
    assert Closing(d, n).cost == ClosedCost(d, e) == Final(d, Full(n), e).cost.Plus(Fin(d[e][0]));
    assert Final(d, Full(n), e).cost == Fin(PathCost(d, t));
  }

  /** A start path over the full mask visits every city once: it is a reordering of `Range(n)`. */
  lemma TraceSpans(d: Matrix, t: seq<int>)
    requires IsSquare(d) && SimplePath(t, |d|) && Elements(t) == Members(Full(|d|), |d|)
    ensures |t| == |d| && OnMatrix(d, t) && IsPermutation(t, Range(|d|))
  {
    var n := |d|;
    FullMembers(n);
    RangeFacts(n);
    forall x
      ensures x in t <==> x in Range(n)
    {
      assert x in t <==> x in Elements(t);
      assert x in Range(n) <==> x in Elements(Range(n));
    }
    SameElementsPermutation(t, Range(n));
    assert |t| == |multiset(t)| == |multiset(Range(n))| == n;
  }

  /**
   * Optimality: `min_cost` is at most the cost of every tour, and strictly
   * below every tour from city 0 that ends at a smaller city than the chosen one.
   */
  lemma ClosingOptimal(d: Matrix, p: seq<int>)
    requires IsSquare(d) && |d| >= 2 && |p| == |d| && IsPermutation(p, Range(|d|)) && OnMatrix(d, p)
    ensures Closing(d, |d|).cost.AtMost(Fin(CycleCost(d, p)))
    ensures Closing(d, |d|).via.Some? && p[0] == 0 && p[|d| - 1] < Closing(d, |d|).via.value ==>
      Closing(d, |d|).cost.Less(Fin(CycleCost(d, p)))
  {
    var n := |d|;
    assert Range(n)[0] == 0;
    assert 0 in multiset(Range(n));
    var k: nat;
    if p[0] == 0 {
      k := 0;
    } else {
      k :| 0 <= k < n && p[k] == 0;
    }
    var q := p[k..] + p[..k];
    CycleCostRotation(d, p, k);
    RotationPermutation(p, k);
    ClosedAtMostTour(d, q);
    var l := q[n - 1];
    var c := Closing(d, n);
    ClosingIsLeast(d, n);
    assert c.cost.AtMost(ClosedCost(d, l));
    assert ClosedCost(d, l).AtMost(Fin(CycleCost(d, p)));
    if c.via.Some? && p[0] == 0 && p[n - 1] < c.via.value {
      assert q == p;
      assert c.cost.Less(ClosedCost(d, l));
    }
  }

  /** A tour from city 0 costs at least the closed cost of its final city. */
  lemma ClosedAtMostTour(d: Matrix, q: seq<int>)
    requires IsSquare(d) && |d| >= 2 && |q| == |d| && IsPermutation(q, Range(|d|)) && OnMatrix(d, q) && q[0] == 0
    ensures 1 <= q[|d| - 1] < |d|
    ensures ClosedCost(d, q[|d| - 1]).AtMost(Fin(CycleCost(d, q)))
  {
    var n := |d|;
    RangeFacts(n);
    PermutationOfDistinct(q, Range(n));
    assert SimplePath(q, n);
    FullMembers(n);
    assert Elements(q) == Elements(Range(n));
    PowMonotone(n, n);
    FinalAtMostPath(d, Full(n), q);
    CycleCostCloses(d, q);
  }
}
