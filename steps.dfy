/** The four scan helpers of the solver: findClosestCity,
    addClosestCityToRoute, findCheapestInsertion and addCheapestCityToRoute.

    Each helper is a method with the solver's loop, proved equal to a
    function that specifies it; lemmas state what that function picks.  The
    helpers that grow a route take the route and return the grown route
    together with the city they added; where the solver would raise (a None
    dereferenced, list.remove(None)), they return None. */
module Steps {
  import opened Costs
  import opened Tours
  import opened Scans

  /** A route with one more city spliced in, and that city. */
  datatype Grown = Grown(route: seq<nat>, city: nat)

  /** g.route is route with g.city inserted at position p; the cities of
      route keep their order around it. */
  predicate InsertedAt(route: seq<nat>, g: Grown, p: nat) {
    p <= |route| && g.route == route[..p] + [g.city] + route[p..]
  }

  /* ------------------------------------------------------------------ */
  /* findClosestCity                                                     */

  /** The costs from cur to each city of cities, in list order. */
  function CostsFrom(m: seq<seq<Cost>>, n: nat, cur: nat, cities: seq<nat>): (xs: seq<Cost>)
    requires IsMatrix(m, n) && cur < n && InRange(cities, n)
    ensures |xs| == |cities|
    ensures forall j :: 0 <= j < |cities| ==> xs[j] == m[cur][cities[j]]
  {
    seq(|cities|, j requires 0 <= j < |cities| => m[cur][cities[j]])
  }

  /** The city findClosestCity(cur, cities) picks from a non-empty list. */
  function Nearest(m: seq<seq<Cost>>, n: nat, cur: nat, cities: seq<nat>): (c: nat)
    requires IsMatrix(m, n) && cur < n && InRange(cities, n) && cities != []
    ensures c in cities && c < n
  {
    cities[LastMin(CostsFrom(m, n, cur, cities)).value]
  }

  /** The nearest city is a city of the list that no other city of the list
      is cheaper to reach than; among those it is the one that comes last in
      the list. */
  lemma NearestIsLastClosest(m: seq<seq<Cost>>, n: nat, cur: nat, cities: seq<nat>)
    requires IsMatrix(m, n) && cur < n && InRange(cities, n) && cities != []
    ensures forall j :: 0 <= j < |cities| ==> Le(m[cur][Nearest(m, n, cur, cities)], m[cur][cities[j]])
    ensures exists k: nat :: k < |cities| && cities[k] == Nearest(m, n, cur, cities) &&
                             forall j :: k < j < |cities| ==> Lt(m[cur][cities[k]], m[cur][cities[j]])
  {
    var xs := CostsFrom(m, n, cur, cities);
    LastMinIsLast(xs);
    var k := LastMin(xs).value;
    assert cities[k] == Nearest(m, n, cur, cities);
  }

  method FindClosestCity(m: seq<seq<Cost>>, n: nat, currentCity: nat, cities: seq<nat>)
    returns (closestCity: Option<nat>)
    requires IsMatrix(m, n) && currentCity < n && InRange(cities, n)
    ensures closestCity.None? <==> cities == []
    ensures closestCity.Some? ==> closestCity.value == Nearest(m, n, currentCity, cities)
  {
    closestCity := None;
    var min := Inf;
    ghost var xs := CostsFrom(m, n, currentCity, cities);
    for i := 0 to |cities|
      invariant LastMin(xs[..i]).None? ==> closestCity.None? && min == Inf
      invariant LastMin(xs[..i]).Some? ==>
                  var k := LastMin(xs[..i]).value;
                  closestCity == Some(cities[k]) && min == xs[k]
    {
      var cost := m[currentCity][cities[i]];
      LastMinStep(xs, i);
      if Le(cost, min) {
        min := cost;
        closestCity := Some(cities[i]);
      }
    }
    assert xs[..|cities|] == xs;
  }

  /* ------------------------------------------------------------------ */
  /* addClosestCityToRoute                                               */

  /** The cost from c to its nearest city of cities. */
  function NearestDist(m: seq<seq<Cost>>, n: nat, c: nat, cities: seq<nat>): Cost
    requires IsMatrix(m, n) && c < n && InRange(cities, n) && cities != []
  {
    m[c][Nearest(m, n, c, cities)]
  }

  /** For each city of route, the cost of reaching its nearest city of
      cities. */
  function NearestDists(m: seq<seq<Cost>>, n: nat, route: seq<nat>, cities: seq<nat>): (ds: seq<Cost>)
    requires IsMatrix(m, n) && InRange(route, n) && InRange(cities, n) && cities != []
    ensures |ds| == |route|
    ensures forall i :: 0 <= i < |route| ==> ds[i] == NearestDist(m, n, route[i], cities)
  {
    seq(|route|, i requires 0 <= i < |route| => NearestDist(m, n, route[i], cities))
  }

  /** The position at which city c is spliced next to the anchor route[k]:
      before the anchor when c is strictly cheaper to leave towards the
      anchor's predecessor than towards its successor (both read cyclically),
      after the anchor otherwise. */
  function Side(m: seq<seq<Cost>>, n: nat, route: seq<nat>, k: nat, c: nat): nat
    requires IsMatrix(m, n) && InRange(route, n) && k < |route| && c < n
  {
    if Lt(m[c][route[Pred(k, |route|)]], m[c][route[Succ(k, |route|)]]) then k else k + 1
  }

  /** What addClosestCityToRoute(route, cities) does: the anchor is the route
      position the route scan ends on, its nearest outside city is spliced
      in beside it.  None when the solver raises: an empty route, no city
      left, or no update in the route scan. */
  function NearestInsertion(m: seq<seq<Cost>>, n: nat, route: seq<nat>, cities: seq<nat>): (r: Option<Grown>)
    requires IsMatrix(m, n) && InRange(route, n) && InRange(cities, n)
    ensures r.Some? ==> r.value.city in cities && |r.value.route| == |route| + 1
    ensures r.Some? ==> InRange(r.value.route, n)
    ensures r.Some? ==> multiset(r.value.route) == multiset(route) + multiset{r.value.city}
  {
    if route == [] || cities == [] then None
    else
      match FirstFiniteMin(NearestDists(m, n, route, cities))
      case None => None
      case Some(k) =>
        var c := Nearest(m, n, route[k], cities);
        InsertAtInRange(route, Side(m, n, route, k, c), c, n);
        Some(Grown(InsertAt(route, Side(m, n, route, k, c), c), c))
  }

  /** addClosestCityToRoute raises exactly when the route is empty, no city
      is left, or every route city's nearest outside city is unreachable. */
  lemma NearestInsertionRaises(m: seq<seq<Cost>>, n: nat, route: seq<nat>, cities: seq<nat>)
    requires IsMatrix(m, n) && InRange(route, n) && InRange(cities, n)
    ensures NearestInsertion(m, n, route, cities).None? <==>
              route == [] || cities == [] ||
              forall i :: 0 <= i < |route| ==> NearestDists(m, n, route, cities)[i].Inf?
  {
    if route != [] && cities != [] {
      FirstFiniteMinIsFirst(NearestDists(m, n, route, cities));
    }
  }

  /** When addClosestCityToRoute does not raise, the route grows by one
      city taken from the list: the anchor is the first route position whose
      nearest distance is least (and finite), the city added is the anchor's
      nearest outside city, and it is spliced in before or after the anchor
      as Side says, every other city keeping its order. */
  lemma NearestInsertionPlacement(m: seq<seq<Cost>>, n: nat, route: seq<nat>, cities: seq<nat>)
    requires IsMatrix(m, n) && InRange(route, n) && InRange(cities, n)
    requires NearestInsertion(m, n, route, cities).Some?
    ensures var g := NearestInsertion(m, n, route, cities).value;
            exists k: nat :: IsFirstFiniteMin(NearestDists(m, n, route, cities), k) &&
                             g.city == Nearest(m, n, route[k], cities) &&
                             InsertedAt(route, g, Side(m, n, route, k, g.city))
  {
    var ds := NearestDists(m, n, route, cities);
    FirstFiniteMinIsFirst(ds);
    var k := FirstFiniteMin(ds).value;
    var c := Nearest(m, n, route[k], cities);
    assert InsertedAt(route, NearestInsertion(m, n, route, cities).value, Side(m, n, route, k, c));
  }

  /** The loop of addClosestCityToRoute over the route: for each route city
      its nearest outside city, keeping the first position whose distance is
      strictly below the best so far.  Its callers never pass an empty city
      list (AddClosestCityToRoute returns before). */
  method ScanRouteForNearest(m: seq<seq<Cost>>, n: nat, route: seq<nat>, cities: seq<nat>)
    returns (cityToAdd: Option<nat>, minIdx: nat)
    requires IsMatrix(m, n) && InRange(route, n) && InRange(cities, n) && cities != []
    ensures cityToAdd.None? <==> FirstFiniteMin(NearestDists(m, n, route, cities)).None?
    ensures cityToAdd.Some? ==>
              && FirstFiniteMin(NearestDists(m, n, route, cities)) == Some(minIdx)
              && cityToAdd.value == Nearest(m, n, route[minIdx], cities)
  {
    var minDist := Inf;
    cityToAdd := None;
    minIdx := 0;
    ghost var ds := NearestDists(m, n, route, cities);
    for i := 0 to |route|
      invariant FirstFiniteMin(ds[..i]).None? ==> cityToAdd.None? && minDist == Inf
      invariant FirstFiniteMin(ds[..i]).Some? ==>
                  && minIdx == FirstFiniteMin(ds[..i]).value && minDist == ds[minIdx]
                  && cityToAdd == Some(Nearest(m, n, route[minIdx], cities))
    {
      var c1 := route[i];
      var closest := FindClosestCity(m, n, c1, cities);
      var dist := m[c1][closest.value];
      assert dist == ds[i];
      FirstFiniteMinStep(ds, i);
      if Lt(dist, minDist) {
        minDist := dist;
        cityToAdd := closest;
        minIdx := i;
      }
    }
    assert ds[..|route|] == ds;
  }

  method AddClosestCityToRoute(m: seq<seq<Cost>>, n: nat, route: seq<nat>, cities: seq<nat>)
    returns (added: Option<Grown>)
    requires IsMatrix(m, n) && InRange(route, n) && InRange(cities, n)
    ensures added == NearestInsertion(m, n, route, cities)
  {
    if cities == [] {
      // findClosestCity returns None for every route city, and c1.costTo(None)
      // raises (or, on an empty route, city_to_add.costTo does)
      return None;
    }
    var cityToAdd, minIdx := ScanRouteForNearest(m, n, route, cities);
    if cityToAdd.None? {
      // city_to_add.costTo(...) raises
      return None;
    }
    var city := cityToAdd.value;
    var aDist := m[city][route[Pred(minIdx, |route|)]];
    var bDist := m[city][route[Succ(minIdx, |route|)]];
    if Lt(aDist, bDist) {
      added := Some(Grown(InsertAt(route, minIdx, city), city));
    } else {
      added := Some(Grown(InsertAt(route, minIdx + 1, city), city));
    }
    NearestInsertionAt(m, n, route, cities, minIdx);
  }

  lemma NearestInsertionAt(m: seq<seq<Cost>>, n: nat, route: seq<nat>, cities: seq<nat>, k: nat)
    requires IsMatrix(m, n) && InRange(route, n) && InRange(cities, n) && cities != []
    requires FirstFiniteMin(NearestDists(m, n, route, cities)) == Some(k)
    ensures k < |route|
    ensures var c := Nearest(m, n, route[k], cities);
            NearestInsertion(m, n, route, cities) == Some(Grown(InsertAt(route, Side(m, n, route, k, c), c), c))
  {
  }

  /* ------------------------------------------------------------------ */
  /* findCheapestInsertion                                               */

  /** For each city c2 of cities, the increase c1->c2 + c2->c3 - c1->c3 of
      splicing c2 into the edge c1->c3. */
  function Deltas(m: seq<seq<Cost>>, n: nat, c1: nat, c3: nat, cities: seq<nat>): (ds: seq<Ext>)
    requires IsMatrix(m, n) && c1 < n && c3 < n && InRange(cities, n)
    ensures |ds| == |cities|
    ensures forall j :: 0 <= j < |cities| ==>
              ds[j] == Delta(m[c1][cities[j]], m[cities[j]][c3], m[c1][c3])
  {
    seq(|cities|, j requires 0 <= j < |cities| => Delta(m[c1][cities[j]], m[cities[j]][c3], m[c1][c3]))
  }

  /** The pair (city, increase) findCheapestInsertion(c1, c3, cities)
      returns.  The increase is never nan. */
  function CheapestBetween(m: seq<seq<Cost>>, n: nat, c1: nat, c3: nat, cities: seq<nat>): (r: (Option<nat>, Ext))
    requires IsMatrix(m, n) && c1 < n && c3 < n && InRange(cities, n)
    ensures !r.1.NaN?
    ensures r.0.Some? ==> r.0.value in cities
  {
    var ds := Deltas(m, n, c1, c3, cities);
    match LastMinExt(ds)
    case None => (None, PosInf)
    case Some(k) => (Some(cities[k]), ds[k])
  }

  /** findCheapestInsertion returns the last city of the list whose increase
      is least among the increases that are not nan, with that increase; it
      returns (None, inf) when every increase is nan, an empty list
      included. */
  lemma CheapestBetweenIsLastLeast(m: seq<seq<Cost>>, n: nat, c1: nat, c3: nat, cities: seq<nat>)
    requires IsMatrix(m, n) && c1 < n && c3 < n && InRange(cities, n)
    ensures var r := CheapestBetween(m, n, c1, c3, cities);
            && (r.0.None? <==> forall j :: 0 <= j < |cities| ==> Deltas(m, n, c1, c3, cities)[j].NaN?)
            && (r.0.None? ==> r.1 == PosInf)
            && (r.0.Some? ==>
                  exists k: nat :: IsLastMinExt(Deltas(m, n, c1, c3, cities), k) &&
                                   r.0.value == cities[k] && r.1 == Deltas(m, n, c1, c3, cities)[k])
  {
    var ds := Deltas(m, n, c1, c3, cities);
    LastMinExtIsLast(ds);
  }

  /** When the edge c1->c3 is finite no increase is nan, so on a non-empty
      list a city is always found, and its increase is at most that of every
      candidate. */
  lemma CheapestBetweenIsLeast(m: seq<seq<Cost>>, n: nat, c1: nat, c3: nat, cities: seq<nat>)
    requires IsMatrix(m, n) && c1 < n && c3 < n && InRange(cities, n)
    requires m[c1][c3].Fin? && cities != []
    ensures CheapestBetween(m, n, c1, c3, cities).0.Some?
    ensures forall j :: 0 <= j < |cities| ==>
              ExtLe(CheapestBetween(m, n, c1, c3, cities).1, Deltas(m, n, c1, c3, cities)[j])
  {
    var ds := Deltas(m, n, c1, c3, cities);
    assert !ds[0].NaN?;
    CheapestBetweenIsLastLeast(m, n, c1, c3, cities);
    var r := CheapestBetween(m, n, c1, c3, cities);
    var k: nat :| IsLastMinExt(ds, k) && r.0.value == cities[k] && r.1 == ds[k];
    forall j | 0 <= j < |cities| ensures ExtLe(r.1, ds[j]) {
      assert !ds[j].NaN?;
    }
  }

  method FindCheapestInsertion(m: seq<seq<Cost>>, n: nat, c1: nat, c3: nat, cities: seq<nat>)
    returns (cityToAdd: Option<nat>, minCostIncrease: Ext)
    requires IsMatrix(m, n) && c1 < n && c3 < n && InRange(cities, n)
    ensures (cityToAdd, minCostIncrease) == CheapestBetween(m, n, c1, c3, cities)
  {
    cityToAdd := None;
    minCostIncrease := PosInf;
    var currentCost := m[c1][c3];
    ghost var ds := Deltas(m, n, c1, c3, cities);
    for j := 0 to |cities|
      invariant LastMinExt(ds[..j]).None? ==> cityToAdd.None? && minCostIncrease == PosInf
      invariant LastMinExt(ds[..j]).Some? ==>
                  var k := LastMinExt(ds[..j]).value;
                  cityToAdd == Some(cities[k]) && minCostIncrease == ds[k]
    {
      var c2 := cities[j];
      var costIncrease := Delta(m[c1][c2], m[c2][c3], currentCost);
      assert costIncrease == ds[j];
      LastMinExtStep(ds, j);
      if ExtLe(costIncrease, minCostIncrease) {
        minCostIncrease := costIncrease;
        cityToAdd := Some(c2);
      }
    }
    assert ds[..|cities|] == ds;
  }

  /* ------------------------------------------------------------------ */
  /* addCheapestCityToRoute                                              */

  /** For each edge route[i] -> route[i+1] of the route read as a cycle, the
      least increase findCheapestInsertion reports for it. */
  function EdgeIncreases(m: seq<seq<Cost>>, n: nat, route: seq<nat>, cities: seq<nat>): (xs: seq<Ext>)
    requires IsMatrix(m, n) && InRange(route, n) && InRange(cities, n)
    ensures |xs| == |route|
    ensures forall i :: 0 <= i < |route| ==>
              xs[i] == CheapestBetween(m, n, route[i], route[Succ(i, |route|)], cities).1
  {
    seq(|route|, i requires 0 <= i < |route| =>
      CheapestBetween(m, n, route[i], route[Succ(i, |route|)], cities).1)
  }

  /** For each edge of the route, the city findCheapestInsertion reports for
      it. */
  ghost function EdgeCandidates(m: seq<seq<Cost>>, n: nat, route: seq<nat>, cities: seq<nat>): (cs: seq<Option<nat>>)
    requires IsMatrix(m, n) && InRange(route, n) && InRange(cities, n)
    ensures |cs| == |route|
    ensures forall i :: 0 <= i < |route| ==>
              cs[i] == CheapestBetween(m, n, route[i], route[Succ(i, |route|)], cities).0
  {
    seq(|route|, i requires 0 <= i < |route| =>
      CheapestBetween(m, n, route[i], route[Succ(i, |route|)], cities).0)
  }

  /** The edge addCheapestCityToRoute picks (min_idx, which stays 0 if the
      scan never updates). */
  function CheapestEdge(m: seq<seq<Cost>>, n: nat, route: seq<nat>, cities: seq<nat>): (k: nat)
    requires IsMatrix(m, n) && InRange(route, n) && InRange(cities, n) && route != []
    ensures k < |route|
  {
    match LastMinExt(EdgeIncreases(m, n, route, cities))
    case None => 0
    case Some(k) => k
  }

  /** The chosen edge is the last one whose least increase is least. */
  lemma CheapestEdgeIsLast(m: seq<seq<Cost>>, n: nat, route: seq<nat>, cities: seq<nat>)
    requires IsMatrix(m, n) && InRange(route, n) && InRange(cities, n) && route != []
    ensures IsLastMinExt(EdgeIncreases(m, n, route, cities), CheapestEdge(m, n, route, cities))
  {
    var xs := EdgeIncreases(m, n, route, cities);
    LastMinExtIsLast(xs);
    assert !xs[0].NaN?;
  }

  /** What addCheapestCityToRoute(route, cities) does: on the chosen edge
      route[k] -> route[k+1] it takes the city findCheapestInsertion found
      for that edge and inserts it at index k, that is BEFORE route[k].
      None when the solver raises: an empty route (list.remove(None) in the
      caller) or no city found for the chosen edge. */
  function CheapestInsertion(m: seq<seq<Cost>>, n: nat, route: seq<nat>, cities: seq<nat>): (r: Option<Grown>)
    requires IsMatrix(m, n) && InRange(route, n) && InRange(cities, n)
    ensures r.Some? ==> r.value.city in cities && |r.value.route| == |route| + 1
    ensures r.Some? ==> InRange(r.value.route, n)
    ensures r.Some? ==> multiset(r.value.route) == multiset(route) + multiset{r.value.city}
  {
    if route == [] then None
    else
      var k := CheapestEdge(m, n, route, cities);
      match CheapestBetween(m, n, route[k], route[Succ(k, |route|)], cities).0
      case None => None
      case Some(c) =>
        InsertAtInRange(route, k, c, n);
        Some(Grown(InsertAt(route, k, c), c))
  }

  /** addCheapestCityToRoute raises exactly when the route is empty or the
      chosen edge has no candidate (an empty list among them).  Otherwise the
      city found for the last edge of least increase is inserted before that
      edge's first city, every other city keeping its order. */
  lemma CheapestInsertionPlacement(m: seq<seq<Cost>>, n: nat, route: seq<nat>, cities: seq<nat>)
    requires IsMatrix(m, n) && InRange(route, n) && InRange(cities, n)
    ensures var r := CheapestInsertion(m, n, route, cities);
            && (route == [] || cities == [] ==> r.None?)
            && (route != [] ==>
                  var k := CheapestEdge(m, n, route, cities);
                  var best := CheapestBetween(m, n, route[k], route[Succ(k, |route|)], cities).0;
                  && IsLastMinExt(EdgeIncreases(m, n, route, cities), k)
                  && (r.None? <==> best.None?)
                  && (r.Some? ==> r.value.city == best.value && InsertedAt(route, r.value, k)))
  {
    if route != [] {
      CheapestEdgeIsLast(m, n, route, cities);
    }
  }

  /** The increase of the chosen insertion is the least over every edge of
      the route and every city that can be spliced into it. */
  lemma CheapestInsertionIsLeast(m: seq<seq<Cost>>, n: nat, route: seq<nat>, cities: seq<nat>,
                                 i: nat, j: nat)
    requires IsMatrix(m, n) && InRange(route, n) && InRange(cities, n)
    requires i < |route| && j < |cities|
    requires !Deltas(m, n, route[i], route[Succ(i, |route|)], cities)[j].NaN?
    ensures ExtLe(EdgeIncreases(m, n, route, cities)[CheapestEdge(m, n, route, cities)],
                  Deltas(m, n, route[i], route[Succ(i, |route|)], cities)[j])
  {
    var xs := EdgeIncreases(m, n, route, cities);
    var k := CheapestEdge(m, n, route, cities);
    var c1, c3 := route[i], route[Succ(i, |route|)];
    var ds := Deltas(m, n, c1, c3, cities);
    CheapestEdgeIsLast(m, n, route, cities);
    CheapestBetweenIsLastLeast(m, n, c1, c3, cities);
    var cand := CheapestBetween(m, n, c1, c3, cities);
    assert cand.0.Some?;
    var q: nat :| IsLastMinExt(ds, q) && cand.1 == ds[q];
    assert ExtLe(xs[i], ds[j]);
    assert ExtLe(xs[k], xs[i]);
  }

  /** The scan of addCheapestCityToRoute over the edges of the route. */
  method ScanEdgesForCheapest(m: seq<seq<Cost>>, n: nat, route: seq<nat>, cities: seq<nat>)
    returns (cityToAdd: Option<nat>, minIdx: nat)
    requires IsMatrix(m, n) && InRange(route, n) && InRange(cities, n) && route != []
    ensures minIdx == CheapestEdge(m, n, route, cities)
    ensures cityToAdd == CheapestBetween(m, n, route[minIdx], route[Succ(minIdx, |route|)], cities).0
  {
    var minCostIncrease := PosInf;
    cityToAdd := None;
    minIdx := 0;
    ghost var xs := EdgeIncreases(m, n, route, cities);
    ghost var cs := EdgeCandidates(m, n, route, cities);
    for i := 0 to |route|
      invariant i > 0 ==> LastMinExt(xs[..i]).Some?
      invariant LastMinExt(xs[..i]).None? ==> minCostIncrease == PosInf
      invariant LastMinExt(xs[..i]).Some? ==>
                  && minIdx == LastMinExt(xs[..i]).value
                  && minCostIncrease == xs[minIdx] && cityToAdd == cs[minIdx]
    {
      var c1 := route[i];
      var c3 := route[Succ(i, |route|)];
      var c2, costIncrease := FindCheapestInsertion(m, n, c1, c3, cities);
      assert costIncrease == xs[i] && c2 == cs[i];
      LastMinExtStep(xs, i);
      if ExtLe(costIncrease, minCostIncrease) {
        minCostIncrease := costIncrease;
        cityToAdd := c2;
        minIdx := i;
      }
    }
    assert xs[..|route|] == xs;
  }

  method AddCheapestCityToRoute(m: seq<seq<Cost>>, n: nat, route: seq<nat>, cities: seq<nat>)
    returns (added: Option<Grown>)
    requires IsMatrix(m, n) && InRange(route, n) && InRange(cities, n)
    ensures added == CheapestInsertion(m, n, route, cities)
  {
    if route == [] {
      // the scan does not run: route.insert(0, None), and the caller's
      // cities.remove(None) raises
      return None;
    }
    var cityToAdd, minIdx := ScanEdgesForCheapest(m, n, route, cities);
    if cityToAdd.None? {
      // route.insert(min_idx, None); the caller's cities.remove(None) raises
      return None;
    }
    added := Some(Grown(InsertAt(route, minIdx, cityToAdd.value), cityToAdd.value));
  }
}
