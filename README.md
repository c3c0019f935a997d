# TSP tour-construction heuristics

This project models the tour-construction heuristics of `TSPSolver.py` in Dafny. They are:

- the four scan helpers: `findClosestCity`, `addClosestCityToRoute`, `findCheapestInsertion` and `addCheapestCityToRoute`;
- the solver entry points that retry one start city after another: `greedy`, `nearest_insertion` and `cheapest_insertion`;
- `defaultRandomTour`;
- `nearest_insertion_all`, which tries every start city and keeps the cheapest tour.

A scenario of `n` cities is the list of indices `0 .. n-1` (`Tours.Iota`). `City.costTo` becomes a cost matrix `m`, where `m[a][b]` is the directed cost from `a` to `b`. A cost is finite and non-negative, or unreachable (`Costs.Cost`). The float differences computed in `findCheapestInsertion` take values in `Costs.Ext`. That type includes `-inf`, `inf` and `nan`, and its `<=` is false whenever one side is `nan`, as it is for floats.

Each helper and each entry point is a Dafny `method` with the source's loop. Each method is proved equal to a function over values that specifies it:

| method | specification function |
|---|---|
| `Steps.FindClosestCity` | `Steps.Nearest` |
| `Steps.AddClosestCityToRoute` | `Steps.NearestInsertion` |
| `Steps.FindCheapestInsertion` | `Steps.CheapestBetween` |
| `Steps.AddCheapestCityToRoute` | `Steps.CheapestInsertion` |
| `Solver.RetryStarts` | `Solver.RetryOutcome` |
| `Solver.NearestInsertionAll` | `Solver.AllStartsOutcome` |

Lemmas then state what those functions pick, that the routes built visit every city exactly once, and what the results dictionary reports.

Where the source would raise, the model returns `None` or `Outcome.Crashed`. The source raises when it dereferences a `None` city (`city_to_add.costTo`) or calls `cities.remove(None)`.

Modules, in dependency order:

- `Costs` (costs.dfy): costs, float deltas and the cost matrix.
- `Tours` (tours.dfy): the city list, `list.remove` and `list.insert`, and the cycle cost of a route.
- `Scans` (scans.dfy): the three running-minimum scans and their tie rules.
- `Steps` (steps.dfy): the four helpers.
- `Attempts` (attempts.dfy): one attempt of each heuristic from a given start city.
- `Solver` (solver.dfy): the entry points and the reports they return.

Where the code and the informal description of the system differ, the model follows the code:

- **Unreachable cities in nearest insertion.** `nearest_insertion` and `nearest_insertion_all` raise when a step finds every nearest distance infinite, meaning no route city reaches any city left. The description says they report an infinite cost instead. See `Steps.NearestInsertionRaises` and `Solver.AllStartsCrashes`.
- **When cheapest insertion raises.** `cheapest_insertion` raises in two cases.
  - The start city reaches no other city, so the first `addClosestCityToRoute` raises.
  - The edge chosen by `addCheapestCityToRoute` has no candidate, because every increase on it is nan (`Steps.CheapestInsertionPlacement`).

  It does not raise just because a city cannot be reached. Increases of `inf` still name a candidate, and the finished route then has an infinite cost.
- **One city.** `cheapest_insertion` raises on a scenario of one city (`Attempts.CheapestSingleCityRaises`).
- **Which nearest pair is chosen.** The description has each outside city look for its nearest route city. The code has each route city look for its nearest outside city, using `findClosestCity`, which keeps the last tie.
- **Which anchor wins a tie.** The description breaks ties between anchors with `<=`, so the later one wins. The code compares with strict `<`, so the first route position with the least distance stays the anchor (`Scans.FirstFiniteMinIsFirst`, `Steps.NearestInsertionPlacement`).
- **Which side wins a tie.** The description says "before" wins a tie between the two sides of the anchor. The code inserts before the anchor only when the predecessor is strictly closer; on a tie, and on a one-city route, it inserts after (`Steps.Side`, `Steps.NearestInsertionPlacement`).
- **Where cheapest insertion places a city.** The description says the city is spliced into the edge whose increase was measured. The code inserts it at index `i`, before `route[i]`. That is the edge before the measured one, `route[i] -> route[i+1]` (`Steps.CheapestInsertionPlacement`).
- **How cheapest insertion picks a city.** The description treats the choice as one minimum over all (city, edge) pairs. The code takes the last least city for each edge, then the last least edge. The increase chosen is still the least of all (`Steps.CheapestInsertionIsLeast`).
- **No cities.** With no cities, `greedy`, `nearest_insertion` and `cheapest_insertion` report an infinite cost, count 0 and no solution. `nearest_insertion_all` reports count 1. `defaultRandomTour` reports cost 0, count 1 and the empty route once it has drawn a permutation, because an empty route is taken to cost 0.

## Model

| member | source | states |
|---|---|---|
| Costs.Delta | TSPSolver.py:326 | The increase `c1->c2 + c2->c3 - c1->c3` as floats compute it. It is nan exactly when `c1->c3` and one of the two new edges are infinite, `-inf` when only `c1->c3` is infinite, `inf` when only a new edge is, and otherwise the integer difference. |
| Tours.IotaCounts | TSPSolver.py:87-88 | Each of the scenario's n cities occurs exactly once in the city list. |
| Tours.TourVisitsEachOnce | TSPSolver.py:52-56 | A permutation of the city list has n elements, all of them cities, with no repeats. |
| Tours.RemoveFirstIsFirst | TSPSolver.py:106 | `cities.remove(c)` drops the first occurrence of `c` and keeps the other cities in order. |
| Tours.RemoveFirstCounts | TSPSolver.py:100 | `cities.remove(c)` takes exactly one `c` out of the multiset of the list. |
| Tours.InsertAt | TSPSolver.py:253 | `route.insert(p, c)` puts `c` at index `p`, removing it gives back the old route, and the route gains exactly one `c`. |
| Tours.Succ | TSPSolver.py:308 | `(i + 1) % len(route)` is the index after `i`, read cyclically. |
| Tours.Pred | TSPSolver.py:250 | `route[min_idx - 1]` reads the cyclic predecessor: the last element when the index is 0. |
| Tours.CycleCostInf | TSPSolver.py:110-112 | A route of two or more cities is rejected as infeasible exactly when one of its edges, the closing edge included, is unreachable. |
| Scans.LastMinIsLast | TSPSolver.py:130-134 | The `<=` scan over costs ends on a position of least cost, and no later position has that cost. |
| Scans.FirstFiniteMinIsFirst | TSPSolver.py:240-246 | The strict `<` scan over costs never updates exactly when every value is infinite. Otherwise it ends on the first position of the least cost, which is finite. |
| Scans.LastMinExtIsLast | TSPSolver.py:325-330 | The `<=` scan over float deltas never updates exactly when every value is nan. Otherwise it ends on the last position of the least non-nan value. |
| Steps.FindClosestCity | TSPSolver.py:127-136 | Returns None exactly on an empty list; otherwise returns the city the specification `Nearest` picks. |
| Steps.NearestIsLastClosest | TSPSolver.py:127-136 | The city returned costs no more to reach than any city of the list, and it is the last city in the list with that cost. |
| Steps.ScanRouteForNearest | TSPSolver.py:240-246 | The route scan ends with no city exactly when every nearest distance is infinite. Otherwise it ends on the first route position with the least nearest distance, and the city it holds is that position's nearest city. |
| Steps.AddClosestCityToRoute | TSPSolver.py:234-257 | Returns exactly the grown route and city that `NearestInsertion` specifies, or None where the code raises. |
| Steps.NearestInsertion | TSPSolver.py:250-257 | When `addClosestCityToRoute` does not raise, the city returned comes from the list and the route grows by exactly that one city. |
| Steps.NearestInsertionRaises | TSPSolver.py:240-250 | It raises exactly when the route is empty, no city is left, or every nearest distance is infinite. |
| Steps.NearestInsertionPlacement | TSPSolver.py:240-255 | When it does not raise, the anchor is the first position of least finite nearest distance, and the city added is the anchor's nearest city. The city is spliced in before the anchor only when its predecessor is strictly closer than its successor, so ties and one-city routes put it after. The other cities keep their order. |
| Steps.FindCheapestInsertion | TSPSolver.py:320-331 | Returns exactly the pair (city, increase) that `CheapestBetween` specifies. |
| Steps.CheapestBetweenIsLastLeast | TSPSolver.py:320-331 | The pair is (None, inf) exactly when every increase is nan, an empty list included. Otherwise the city is the last one whose increase is least among the non-nan increases, and the pair carries that increase. |
| Steps.CheapestBetweenIsLeast | TSPSolver.py:323-331 | When the edge `c1->c3` is finite and the list is not empty, a city is always found, and its increase is at most every candidate's. |
| Steps.ScanEdgesForCheapest | TSPSolver.py:306-314 | The edge scan ends on the edge `CheapestEdge` picks, holding the city `findCheapestInsertion` reports for that edge. |
| Steps.CheapestEdgeIsLast | TSPSolver.py:306-314 | The edge chosen is the last edge of the route whose least increase is least. |
| Steps.CheapestInsertionIsLeast | TSPSolver.py:306-314 | The increase of the chosen edge is at most the increase of every (edge, city) pair that is not nan. |
| Steps.AddCheapestCityToRoute | TSPSolver.py:300-318 | Returns exactly the grown route and city that `CheapestInsertion` specifies, or None where the caller's `cities.remove(None)` raises. |
| Steps.CheapestInsertionPlacement | TSPSolver.py:306-318 | It raises when the route or the list is empty. Otherwise the edge is the last of least increase, and it raises exactly when that edge has no city. When it does not raise, the city found for that edge is inserted at the edge's index, before `route[i]`, and the other cities keep their order. |
| Steps.CheapestInsertion | TSPSolver.py:316-318 | When `addCheapestCityToRoute` does not raise, the city returned comes from the list and the route grows by exactly that one city. |
| Attempts.OthersCounts | TSPSolver.py:95-100 | The working list holds every city but the start city once, and nothing else. |
| Attempts.GreedyPathPermutes | TSPSolver.py:103-106 | The greedy walk visits every city of the working list, once each. |
| Attempts.GreedyRouteIsTour | TSPSolver.py:95-106 | Every greedy route visits each city of the scenario exactly once. |
| Attempts.GreedyPicksNearestUnvisited | TSPSolver.py:103-106 | At each step of a greedy route, no city visited later is strictly closer than the next city. |
| Attempts.BuildGreedy | TSPSolver.py:95-106 | The greedy attempt from `startCity` builds the route `GreedyRoute` specifies. |
| Attempts.InsertNearestPermutes | TSPSolver.py:213-215 | Nearest insertion moves every city of the working list into the route, once each, unless a step raises. |
| Attempts.NearestRouteIsTour | TSPSolver.py:205-215 | Every route nearest insertion completes visits each city exactly once. |
| Attempts.BuildNearest | TSPSolver.py:205-215 | The nearest insertion attempt from `startCity` builds the route `NearestRoute` specifies, or None where it raises. |
| Attempts.InsertCheapestPermutes | TSPSolver.py:279-281 | Cheapest insertion moves every city of the working list into the route, once each, unless a step raises. |
| Attempts.CheapestRouteIsTour | TSPSolver.py:270-281 | Every route cheapest insertion completes visits each city exactly once. |
| Attempts.CheapestSingleCityRaises | TSPSolver.py:276 | With one city, the first `addClosestCityToRoute` gets an empty list and the attempt raises. |
| Attempts.BuildCheapest | TSPSolver.py:270-281 | The cheapest insertion attempt from `startCity` builds the route `CheapestRoute` specifies, or None where it raises. |
| Solver.AttemptIsTour | TSPSolver.py:95-106 | Every route an attempt builds, by any of the three heuristics, is a permutation of the cities. |
| Solver.RetryReports | TSPSolver.py:94-120 | The retry loop raises exactly when an attempt raises before any attempt is feasible. The count never exceeds the number of attempts. A finite cost means the count is the number of attempts made, the last attempt is the solution, a feasible tour of that cost, and every earlier attempt was rejected. An infinite cost means every attempt was made and rejected, and the solution is the last one evaluated, or None if there was none. |
| Solver.RetryStarts | TSPSolver.py:204-227 | `greedy`, `nearest_insertion` and `cheapest_insertion` (the same loop also at lines 94-120 and 269-293) return exactly `RetryOutcome`. That is the retry loop over the attempts from start cities 0, 1, ..., for as many as the cities and the clock allow. |
| Solver.RetryOutcomeReports | TSPSolver.py:269-293 | The count reported is at most the number of cities and at most the clock budget. A finite cost comes with the attempt from start city `count - 1`, which is a tour, and that tour's cost. |
| Solver.DefaultRandomTour | TSPSolver.py:42-70 | `defaultRandomTour` returns exactly the retry loop over the routes of the permutations drawn. |
| Solver.RandomReports | TSPSolver.py:50-66 | `defaultRandomTour` never raises. Its count is at most the number of permutations drawn. A finite cost comes with the last permutation drawn, a feasible tour. |
| Solver.NearestInsertionAll | TSPSolver.py:139-187 | `nearest_insertion_all` returns exactly `BestOf` over the attempts from every start city, whatever the clock. |
| Solver.BestOfReports | TSPSolver.py:154-182 | It raises exactly when an attempt raises. The count is the number of attempts, or 1 with no cities. The cost is at most every attempt's cost. The solution is the first attempt of that least cost. There is no solution, at infinite cost, exactly when every attempt is rejected. |
| Solver.AllStartsCrashes | TSPSolver.py:165-167 | `nearest_insertion_all` raises exactly when the attempt from some start city raises. |
| Solver.AllStartsSolution | TSPSolver.py:169-182 | The solution kept is a feasible tour, and the cost reported is its cost. |
| Solver.AllStartsBeatsRetry | TSPSolver.py:139-232 | When `nearest_insertion_all` does not raise, `nearest_insertion` does not raise either, with any clock budget. The all-starts cost is at most the cost `nearest_insertion` reports. |

## Left out

- The PyQt version dispatch and imports: GUI plumbing.
- The wall-clock time test at lines 50, 94, 204 and 269 is modelled as a budget: the test passes for the first `budget` times it is made. The `'time'` field of the results is not modelled.
- `np.random.permutation` is not modelled: `defaultRandomTour` receives the permutations it draws as a parameter. The number of permutations plays the role of the clock.
- Floating-point costs are modelled as non-negative integers or infinity. Only the float values `-inf`, `inf` and `nan` of the insertion increase are kept. Rounding is not modelled.
- `TSPClasses.py` is not part of this model. `City.costTo` is the cost matrix. `TSPSolution(route).cost` is assumed to be the cycle sum: consecutive edges plus the closing edge, infinite if any edge is, and 0 for a route of fewer than two cities.
- `branchAndBound` and `fancy` are not modelled: they only call `nearest_insertion` and `cheapest_insertion`.
- The result fields `'max'`, `'total'` and `'pruned'` are always None and are not modelled.
- Lists are updated in place in the source. In the model, the helpers return the grown route and the callers rebind their own copy of it. No other reference to the lists exists in the source, so no aliasing is lost.
- Python exceptions are modelled as None or `Crashed` results. The kind of exception raised is not modelled.
