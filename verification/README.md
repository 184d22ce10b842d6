# Travelling-salesman solvers, modelled in Dafny

The repository solves the travelling-salesman problem on TSPLIB instances in
six ways, one Python file each. This project models the algorithmic core of
each solver over an integer cost matrix and proves what each one returns:

- **Held–Karp** dynamic programming (`HeldKarp.py`). It covers the 2^n × n
  `dp` and `parent` tables, the fill over ascending bit masks, the choice of
  the closing city, and the walk back through the parent entries.
- **Branch and bound** (`BranchAndBound.py`). It covers `first_min`,
  `second_min`, the halved root bound, and the recursive `tsp_rec` with its
  bound test and backtracking. `solve_tsp_branch_bound` is modelled too.
- **Brute force** (`BruteForce.py`). It covers `calculate_cost` and the scan
  over `itertools.permutations` in that function's enumeration order.
- **Nearest neighbour** (`NearestNeighbour.py`). It covers the greedy walk
  over the set of unvisited cities.
- **Hill climbing** (`HillClimbing.py`). It covers `get_neighbors`, which
  lists every two-position swap, and steepest descent to a local optimum.
- **Simulated annealing** (`SimulatedAnnealing.py`). It covers the loop that
  tracks the best route seen.

Python's `math.inf` / `np.inf` become the datatype `Ext` (a finite integer or
`Inf`, compared and added as Python does). An exception the source raises on
a degenerate input becomes an `Err` outcome, never a precondition. Masks are
unbounded naturals whose bits are defined arithmetically.

The files, module by module:

| file | module | contents |
|---|---|---|
| `outcomes.dfy` | `Outcomes` | `Option`, `Result`, the Python exceptions, `Ext`, `Tour` |
| `tours.dfy` | `Tours` | matrices, routes, path and cycle sums, the `calculate_cost` loop, permutation facts |
| `bitmask.dfy` | `Bitmask` | `1 << i`, `&`, `\|` and `^` with one bit, on naturals |
| `held_karp_recurrence.dfy` | `HeldKarpRecurrence` | what the finished tables hold, as a recursion over masks, and what it means |
| `held_karp.dfy` | `HeldKarp` | the table fill, closing choice, reconstruction and the whole solver |
| `brute_force.dfy` | `BruteForce` | `itertools.permutations` order and the exhaustive scan |
| `agreement.dfy` | `Agreement` | Held–Karp and brute force find the same optimum |
| `branch_and_bound.dfy` | `BranchAndBound` | row minima, root bound, `tsp_rec`, the solver |
| `nearest_neighbour.dfy` | `NearestNeighbour` | the greedy tour |
| `neighbours.dfy` | `Neighbours` | `get_neighbors` and the order of its swaps |
| `hill_climbing.dfy` | `HillClimbing` | `min` over neighbours and the descent loop |
| `simulated_annealing.dfy` | `SimulatedAnnealing` | one iteration and the best-tracking loop |

## Model

| member | source | states |
|---|---|---|
| `Tours.CalculateCost` | HillClimbing.py:23-30 | The loop's total is the cost of walking the route and then back to its first city, and 0 for an empty route. The same function appears in BruteForce.py:17-24 and SimulatedAnnealing.py:22-29. |
| `Tours.CycleCostOpen` | BruteForce.py:20-23 | The wrap-around sum equals the sum over the open route plus the edge from the last city back to the first. |
| `Tours.CycleCostCloses` | BruteForce.py:20-23 | The wrap-around sum is also the path sum of the route with its first city appended, the closed tour the other solvers return. |
| `Tours.CycleCostRotation` | BruteForce.py:22 | Rotating a route does not change `calculate_cost`, so the starting city of a cycle does not matter. |
| `Tours.PermutationOfDistinct` | HeldKarp.py:41-48 | A reordering of a repeat-free city list has no repeats and the same cities. |
| `Tours.DistinctFillsRange` | BranchAndBound.py:37-43 | n distinct city indices below n are a permutation of 0..n-1. |
| `Bitmask.WithToggleMembers` | HeldKarp.py:32-34 | `mask \| (1 << j)` adds city j to the visited set. When j is present, `mask ^ (1 << j)` removes it, and when j is absent the two agree. |
| `Bitmask.FullHasAll` | HeldKarp.py:43 | `(1 << n) - 1` holds every city below n. |
| `Bitmask.AddBitBound` | HeldKarp.py:34 | Adding an absent city below n keeps the mask below 2^n, so `new_mask` is a valid table row. |
| `HeldKarpRecurrence.RelaxedBelow` | HeldKarp.py:31-38 | After the relaxation, an entry is at most its start value and at most every candidate `dp[pred][last] + d[last][next]` offered to it. |
| `HeldKarpRecurrence.RelaxedShape` | HeldKarp.py:35-38 | An entry either kept its start value and has no parent, or its parent is the smallest source whose candidate equals it. That source is in the predecessor mask, the value is finite, and every earlier source offered something strictly dearer. |
| `HeldKarpRecurrence.ViaInMask` | HeldKarp.py:36-38 | A recorded parent is a city of the mask with the entry's own city removed. |
| `HeldKarpRecurrence.FinalAtMostPath` | HeldKarp.py:24-38 | Take any path that starts at city 0, visits exactly the cities of `mask` once each and ends at `last`. The finished `dp[mask][last]` is at most its cost. |
| `HeldKarpRecurrence.TraceRealizes` | HeldKarp.py:51-58 | Take a finite finished entry. Walking its parents yields a path from city 0 over exactly the mask's cities, ending at `last`, and that path costs exactly the entry. So a finite entry contains city 0 and `last`. |
| `HeldKarpRecurrence.ClosingIsLeast` | HeldKarp.py:41-48 | `min_cost` is the least `dp[full][last] + d[last][0]` over 1 <= last < n. `end_city` is the smallest last reaching it, and none with `min_cost` infinite when n < 2. |
| `HeldKarp.InitTables` | HeldKarp.py:21-24 | There are 2^n rows of n entries, all infinite with no parent except `dp[1][0] = 0`. |
| `HeldKarp.FillTables` | HeldKarp.py:27-38 | After the three nested loops, every entry equals the recursive reference `Final`. Each mask is complete before the ascending loop reads it. |
| `HeldKarp.RelaxEdge` | HeldKarp.py:34-38 | One relaxation of `next` from `last` moves the tables from one stage of the fill to the next. The entry for `mask \| (1 << next)` takes the candidate only when it is strictly smaller. |
| `HeldKarp.ChooseClosing` | HeldKarp.py:41-48 | The closing loop returns a cost no greater than any closed cost. A chosen end city attains it, and every earlier end city is strictly dearer. With no end city the cost is infinite. |
| `HeldKarp.Reconstruct` | HeldKarp.py:51-62 | The reversed parent walk, with `cities[0]` appended, is the labelled path the parent entries trace from `end_city`. |
| `HeldKarp.Solve` | HeldKarp.py:20-62 | n = 0 raises IndexError. n = 1 gives `[cities[0]]` at infinite cost. For n >= 2 it gives n+1 cities from `cities[0]` back to it, every city once. Its cost is that tour's edge sum, no permutation is cheaper, and any tour from city 0 whose last city is smaller costs strictly more. |
| `HeldKarp.ClosingTour` | HeldKarp.py:43-58 | With n >= 2, the chosen end city's parent walk is a Hamiltonian path from city 0. Closed back to city 0, it costs `min_cost`. |
| `HeldKarp.ClosingOptimal` | HeldKarp.py:41-48 | `min_cost` is at most the cycle cost of every permutation of the cities. Ties are broken towards the smaller last city. |
| `HeldKarp.ReverseLabel` | HeldKarp.py:55-61 | Reversing the collected labels `cities[last_visited]` gives the labels of the reversed index walk. So `tour[::-1]` is the walk from city 0 in forward order, written as labels. |
| `BruteForce.PermutationsSound` | BruteForce.py:30 | Everything the modelled `itertools.permutations` yields is a permutation of the input. |
| `BruteForce.PermutationsComplete` | BruteForce.py:30 | Every permutation of the input is yielded. |
| `BruteForce.Search` | BruteForce.py:26-41 | The result is a permutation of `cities` costing `min_cost`, and no permutation is cheaper. It is the first cheapest in enumeration order. An empty list gives the empty route at cost 0. |
| `Agreement.BothExact` | HeldKarp.py:41-48 | For n >= 2, Held–Karp's `min_cost` equals the brute-force minimum. For n = 1, Held–Karp reports infinity while brute force reports the self-loop `d[0][0]`. |
| `BranchAndBound.FirstMinUpTo` | BranchAndBound.py:15-20 | `first_min` is at most every off-diagonal entry of the row and equals one of them. It is infinite exactly when the row has no off-diagonal entry. |
| `BranchAndBound.LowestUpTo` | BranchAndBound.py:22-32 | In the `(first, second)` pair of `second_min`, first <= second and first is at most every off-diagonal entry scanned. first is finite iff at least one off-diagonal entry was scanned, and second iff at least two were. A finite first is one of those entries. |
| `BranchAndBound.SecondAttained` | BranchAndBound.py:27-31 | A finite `second` equals one off-diagonal entry, and a different off-diagonal entry is at most it. |
| `BranchAndBound.SecondTight` | BranchAndBound.py:27-31 | No two off-diagonal entries both lie strictly below `second`, because `<=` shifts an equal value into `second`. |
| `BranchAndBound.MinsOfRow` | BranchAndBound.py:15-32 | `first_min` <= `second_min`. `first_min` is finite iff N >= 2, and `second_min` is finite iff N >= 3. |
| `BranchAndBound.RowSum` | BranchAndBound.py:81-82 | The sum of `first_min + second_min` over the rows is finite iff N >= 3, or no rows are summed. |
| `BranchAndBound.RootBound` | BranchAndBound.py:84 | The doubled root bound is infinite iff the sum is. Otherwise it is even and lies between the sum and the sum plus 1, so it is twice the ceiling of half the sum. |
| `BranchAndBound.CeilHalf` | BranchAndBound.py:84 | The ceiling of s/2: twice it is s or s + 1. |
| `BranchAndBound.Rebuild` | BranchAndBound.py:65-68 | The rebuilt `visited` is set exactly for the cities among the first `level` path entries. |
| `BranchAndBound.Extend` | BranchAndBound.py:34-68 | `tsp_rec` leaves the path prefix in place. Every tour it records is valid and extends the prefix. The best afterwards is what offering those tours in order, strictly-cheaper-only, makes of the best before. Every child it enters passed the bound test. An infinite bound enters nothing. Every valid tour extending the prefix is recorded, or one of the bound tests along it, from this level down, fails against the final `final_res[0]`. With a finite bound and `final_res[0]` still infinite, it reaches a tour whenever some valid tour extends the prefix. |
| `BranchAndBound.Branch` | BranchAndBound.py:46-68 | One candidate city i is entered iff the edge to it is non-zero, it is unvisited, and the child bound (`ChildBound`) plus the new weight is below `final_res[0]`. Every valid tour through the prefix plus i is recorded, or a bound test along it fails against the final `final_res[0]`. With a finite bound and `final_res[0]` still infinite, a tour is reached whenever some valid tour extends the prefix plus i. Afterwards `current_weight` and `current_bound` are restored, and `visited` again marks exactly the prefix. |
| `BranchAndBound.Descend` | BranchAndBound.py:56-60 | The child call on the path extended with city i is made iff the bound test passes. It keeps the prefix, and its tours all extend the prefix plus i. The first entry it records is that child, against the incumbent from before the call. If the bound test also passes against the final incumbent, every valid tour through the prefix plus i is recorded or cut further down. With a finite bound and an infinite incumbent, it reaches a tour whenever one extends the prefix plus i. |
| `BranchAndBound.TourEnters` | BranchAndBound.py:46-56 | With a finite bound and `final_res[0]` still infinite, a city that some valid tour takes right after the prefix passes all three tests: a non-zero edge, not yet visited, and the bound test. |
| `BranchAndBound.CompletableStep` | BranchAndBound.py:46-47 | A prefix that some valid tour extends, short of all N cities, has a city among 0..N-1 whose addition some valid tour still extends. |
| `BranchAndBound.CompletableLeaf` | BranchAndBound.py:37-38 | A full path that some valid tour extends has a non-zero edge back to city 0, so the leaf closes a tour. |
| `BranchAndBound.StartsAtZero` | BranchAndBound.py:86-89 | Every valid tour extends the root path `[0]`. |
| `BranchAndBound.TourSteps` | BranchAndBound.py:47 | A valid tour through the prefix and then city i uses a non-zero edge into i, and i is not already on the prefix. |
| `BranchAndBound.BoundAlongShift` | BranchAndBound.py:51-54 | Updating the bound step by step along a tour from one level gives the same bound as first updating it for the next city and then continuing from the level below. |
| `BranchAndBound.PrunedShift` | BranchAndBound.py:51-60 | A tour whose child bound test fails, or which is cut below the child, is cut below the parent. |
| `BranchAndBound.PrunedLower` | BranchAndBound.py:56 | A bound test that fails against an incumbent also fails against any lower one. |
| `BranchAndBound.LeafTour` | BranchAndBound.py:37-38 | The only valid tour extending a full path is that path closed back to city 0, and its edge home is non-zero. |
| `BranchAndBound.LeafCovered` | BranchAndBound.py:37-44 | At the last level every valid tour through the path is the tour the leaf closes. |
| `BranchAndBound.EnteredCovers` | BranchAndBound.py:47-60 | For an entered candidate i, the tours through the prefix plus i are covered below the parent. If the child's test passes against the final incumbent, the child covers them. Otherwise that test cuts them. |
| `BranchAndBound.CoverStep` | BranchAndBound.py:46-68 | After the branch for city i, every tour whose next city is at most i is recorded or cut, against the incumbent after that branch. |
| `BranchAndBound.CoveredAll` | BranchAndBound.py:46 | Once the loop has passed every city, every valid tour through the prefix is covered. |
| `BranchAndBound.Close` | BranchAndBound.py:37-44 | At `level == N` the path closes into a tour exactly when its last city has a non-zero edge home. That tour replaces the best only when strictly cheaper. Every valid tour through the path is that tour. |
| `BranchAndBound.Advance` | BranchAndBound.py:46-68 | One turn of the loop keeps the loop's invariant `Sweep`: the path and flags are restored, the tours so far extend the prefix, the best is the best over them, and every tour through a city up to i is covered. |
| `BranchAndBound.Enter` | BranchAndBound.py:57-60 | Past the bound test, the child search is made on the prefix plus i, its entry is recorded first, and every valid tour through the prefix plus i is recorded or cut below the child. |
| `BranchAndBound.FromZeroCovered` | BranchAndBound.py:86-89 | Covering the tours through `[0]` covers every valid tour, since each starts at city 0. |
| `BranchAndBound.FromZeroReaches` | BranchAndBound.py:84-89 | With three or more cities, a search from `[0]` that reaches a tour whenever one through `[0]` exists reaches one exactly when the matrix has a valid tour. |
| `BranchAndBound.FewCities` | BranchAndBound.py:84-89 | One city closes `[0, 0]` when `adj[0][0]` is non-zero, and otherwise nothing. Two cities give an infinite root bound, so no tour is reached. |
| `BranchAndBound.RootStart` | BranchAndBound.py:86-87 | City 0 first on the path and marked visited is the walk `[0]` of weight 0, with exactly that city marked. |
| `BranchAndBound.Closed` | BranchAndBound.py:37-43 | A full walk closed over a non-zero return edge is a valid tour whose edge sum is the weight plus that edge. |
| `BranchAndBound.Step` | BranchAndBound.py:47-58 | Extending the path with an unvisited city over a non-zero edge keeps it a walk, adds the edge to the weight, and marks the city visited. |
| `BranchAndBound.ImproveResult` | BranchAndBound.py:40-43 | The best never rises and is at most every tour offered. When it changed, it is the first tour of least cost, strictly below the old value. |
| `BranchAndBound.ImproveAppend` | BranchAndBound.py:40-43 | Offering two batches of tours one after the other is the same as offering them all in order. |
| `BranchAndBound.Solve` | BranchAndBound.py:71-91 | N = 0 raises IndexError. Otherwise the route has N+1 entries. The result is infinite iff no tour was recorded, and then the route is all -1. For N >= 3 the result is infinite iff the matrix has no valid tour at all. A finite result is a valid tour from city 0 back to 0 whose edge sum equals the result. It is at most every recorded tour and is the first of them at that cost. Every valid tour not recorded fails one of the bound tests along it, from the root bound down, against the final result. For N = 1 the answer is `adj[0][0]` over `[0, 0]` when that entry is non-zero. For N = 2 the answer is infinite. |
| `BranchAndBound.Root` | BranchAndBound.py:74-89 | The top-level call starts from the path `[0]` with the doubled root bound. Every tour it records starts at city 0, and its best is what those tours make of the all -1 route at infinite cost. Every valid tour is recorded or fails a bound test along it, from the root bound down, against that best. With one city the only tour is `[0, 0]`, when `adj[0][0]` is non-zero. With two cities no tour is reached. With N >= 3 some tour is reached iff the matrix has a valid tour. |
| `BranchAndBound.Outcome` | BranchAndBound.py:78-91 | Starting from infinity and an all -1 route, the final result is infinite iff no tour was reached, and then the route stays all -1. A finite result is a valid tour whose edge sum and `calculate_cost` equal it. It is at most every tour reached and the first of them at that cost. |
| `BranchAndBound.TourIsCycle` | BranchAndBound.py:38-43 | A valid tour's edge sum is the `calculate_cost` of its first N cities. |
| `BranchAndBound.TwoCitiesUnbounded` | BranchAndBound.py:22-32 | With two cities each row has one off-diagonal entry. `second_min` is therefore infinite and so is the root bound. |
| `NearestNeighbour.Tour` | NearestNeighbour.py:13-36 | An empty list raises IndexError. Otherwise the path starts and ends at `cities[0]` and has one entry per distinct city plus one. It visits each city once, is a permutation of repeat-free `cities`, and costs the sum of its edges, the same as the cycle cost. Every step goes to a cheapest unvisited city. A single city gives `[c, c]` at cost `graph[c][c]`. |
| `NearestNeighbour.Visit` | NearestNeighbour.py:16-30 | The loop ends with every city on the path exactly once, starting at `cities[0]`, with `total_cost` the path's edge sum and every step greedy. |
| `NearestNeighbour.Step` | NearestNeighbour.py:25-30 | One pass appends a cheapest unvisited city, removes it from the unvisited set, which shrinks, and adds the edge into it. |
| `NearestNeighbour.Cheapest` | NearestNeighbour.py:25 | A non-empty set of cities always has one no other city of the set undercuts. |
| `NearestNeighbour.Advance` | NearestNeighbour.py:25-30 | Moving to a cheapest unvisited city keeps the path repeat-free, greedy, and costing `total_cost`. The unvisited set stays the remaining cities. |
| `NearestNeighbour.Finish` | NearestNeighbour.py:33-34 | Appending `cities[0]` closes the tour. Its edge sum is the path's cycle cost, and it is a permutation of repeat-free `cities` plus the return. |
| `Neighbours.PairsFacts` | HillClimbing.py:40-41 | The nested loops visit n(n-1)/2 pairs, every i < j < n exactly once, in strictly increasing (i, j) order. |
| `Neighbours.PairsPosition` | HillClimbing.py:40-41 | A pair earlier in (i, j) order is listed earlier. |
| `Neighbours.SwapPermutation` | HillClimbing.py:42-43 | Swapping two positions of a copy yields a permutation of the route. |
| `Neighbours.GetNeighbors` | HillClimbing.py:38-45 | It returns n(n-1)/2 routes. Entry k is the route with the k-th pair's positions exchanged. The same function appears in SimulatedAnnealing.py:37-44. |
| `HillClimbing.FirstLowest` | HillClimbing.py:55 | `min(neighbors, key=calculate_cost)` returns a route no neighbour undercuts and strictly cheaper than every earlier one. |
| `HillClimbing.Choice` | HillClimbing.py:54-55 | The neighbour `min` picks is the first cheapest swap in (i, j) order, and no swap is cheaper. |
| `HillClimbing.Cheapest` | HillClimbing.py:54-55 | Fewer than two cities raise ValueError, from `min` of an empty list. Otherwise it returns the first cheapest swap, a permutation of the route. |
| `HillClimbing.CycleCostFloor` | HillClimbing.py:53-61 | A route costs at least its length times the smallest matrix entry, which bounds the descent. |
| `HillClimbing.Climb` | HillClimbing.py:48-63 | Fewer than two cities raise ValueError. Otherwise the result is a permutation of the starting route, its cost is `calculate_cost` and at most the start's, and no swap undercuts it. Each step taken was the first cheapest swap and strictly cheaper. |
| `HillClimbing.DescentSnoc` | HillClimbing.py:58-61 | A strictly cheaper first-cheapest swap extends the record of the descent. |
| `SimulatedAnnealing.Candidate` | SimulatedAnnealing.py:55-56 | The neighbour drawn is a permutation of the current route. |
| `SimulatedAnnealing.Next` | SimulatedAnnealing.py:59-60 | After an iteration that does not fail, the current route is either unchanged or the candidate, and stays a permutation on the matrix. |
| `SimulatedAnnealing.BetterAccepted` | SimulatedAnnealing.py:59 | A strictly cheaper candidate is taken whatever the random test says. When the test rejects, a change means the candidate was strictly cheaper. |
| `SimulatedAnnealing.LeadsSnoc` | SimulatedAnnealing.py:62-63 | Replacing the best only on a strictly smaller cost keeps it the first cheapest route seen. |
| `SimulatedAnnealing.Iterate` | SimulatedAnnealing.py:55-60 | Fewer than two cities raise IndexError from `random.choice`. Otherwise a candidate that is not strictly cheaper, at a temperature of zero, raises ZeroDivisionError from the division in the acceptance test. In every other case it moves as `Next` says, with the matching cost. |
| `SimulatedAnnealing.Anneal` | SimulatedAnnealing.py:46-67 | IndexError iff there are fewer than two cities and at least one iteration. The only other failure is ZeroDivisionError: the trail of routes up to it is a valid run, and its last iteration divides by a zero temperature. Otherwise the loop runs `max_iterations` times, none of them dividing by zero. Every current route is a permutation of the start. The result is the first cheapest current route, at most the start's cost, and its cost is its `calculate_cost`. |

## Left out

- Reading TSPLIB files (`load_tsp_file`), plotting (`plot_route`), the `__main__` blocks and `time.time()` timing: these are I/O and wall-clock only. Each solver takes the cost matrix and, where relevant, the city labels as parameters.
- Held–Karp takes the distance matrix and the `cities` labels directly, not a file name.
- The brute-force, nearest-neighbour, hill-climbing and annealing models use city indices 0..n-1 in place of TSPLIB labels. The source looks costs up in a dictionary keyed by label, and the model uses a matrix indexed by position.
- Randomness:
  - The initial routes from `random.sample` are a parameter.
  - `random.choice` is an index `picks[t]`, taken modulo the number of neighbours.
  - The acceptance test `random.random() < exp(...)` is a boolean `accepts[t]`.
  - Seeding is not modelled.
- `SimulatedAnnealing.Anneal`: the temperature at each iteration is a parameter `temperatures[t]`. The model does not compute `initial_temp` times `cooling_rate` to the t in floats, with its rounding and its underflow to 0.0 after enough iterations. It looks at the temperature only to decide whether the division in the acceptance test fails. This happens at a temperature of zero, which arises from `initial_temp = 0`, from `cooling_rate = 0` after the first iteration, or from underflow. Any other effect of the temperature is folded into `accepts[t]`. `np.exp` overflowing to infinity only warns, so it raises nothing.
- Ties in `min` over the `unvisited_cities` set: Python's order depends on the set's hash layout. `NearestNeighbour.Step` may take any cheapest city.
- Branch and bound computes the bound in floats (`/ 2`, `np.ceil`). The model keeps the bound doubled as an exact integer and compares the bound test in that doubled form. The two agree while every bound, weight and cost stays below 2^52 in magnitude, where a double holds every integer and half-integer exactly. Float rounding beyond that range is not modelled.
- The matrix `adj` of branch and bound is a numpy int64 array, so the sums the source forms from its entries wrap around past 2^63. The model's integers are unbounded, so this wrap-around is not modelled.
- `BranchAndBound.Solve`: does not claim the result is a global optimum. The half-sum bound is not shown admissible. So a valid tour left out is only shown to fail some bound test against the final result, not to cost at least that result.
- `BranchAndBound.Extend`: the recorded tours are not pinned to exactly the sequence `tsp_rec` closes. Each candidate's entry is pinned by `Branch`, and every valid tour is recorded or cut, but a search that closes extra tours also meets the contract.
- Held–Karp for one city: the code returns `[cities[0]]` with `min_cost` infinite, because the closing loop over 1..n-1 is empty. A round trip `[c, c]` at cost 0 might be expected instead. The model follows the code.
- Branch and bound for two cities: `second_min` is infinite for both rows, so the root bound is infinite, no child passes the bound test, and the result is infinite with an all -1 path. The model states this as the code's behaviour.
- Christofides.py: its work is done by networkx calls (spanning tree, matching, Euler circuit), so it is not part of this model.
- The Python list mutation in `tsp_rec` is modelled by values passed in and returned. `final_res` and `final_path` are returned as one `Best` value, and `current_path` and `visited` are returned along with it.
