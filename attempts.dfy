/** One attempt of each constructive heuristic: the route the solver builds
    from a given start city, before it is evaluated.  Every attempt copies
    the scenario's city list, takes the start city out of it, and then moves
    cities from the working list into the route one at a time until the list
    is empty (the solver's inner loops run exactly as many times as there are
    cities left).  The nearest and cheapest insertion attempts stop with None
    where the solver raises. */
module Attempts {
  import opened Costs
  import opened Tours
  import opened Steps

  /** `cities = original_cities.copy(); cities.remove(startCity)`. */
  function Others(n: nat, s: nat): (cs: seq<nat>)
    requires s < n
    ensures |cs| == n - 1 && InRange(cs, n)
  {
    assert Iota(n)[s] == s;
    RemoveFirstInRange(Iota(n), s, n);
    RemoveFirst(Iota(n), s)
  }

  /** The working list holds every city but the start city, once each. */
  lemma OthersCounts(n: nat, s: nat)
    requires s < n
    ensures forall c: nat :: multiset(Others(n, s))[c] == if c < n && c != s then 1 else 0
  {
    assert Iota(n)[s] == s;
    RemoveFirstCounts(Iota(n), s);
    IotaCounts(n);
  }

  /** The working list and the start city together are the city list. */
  lemma OthersAndStart(n: nat, s: nat)
    requires s < n
    ensures multiset(Others(n, s)) + multiset{s} == multiset(Iota(n))
  {
    OthersCounts(n, s);
    IotaCounts(n);
  }

  // ---------------------------------------------------------------- greedy

  /** The cities the greedy walk visits after cur: the nearest city of the
      working list (findClosestCity), then the walk from there over the list
      without it. */
  function GreedyPath(m: seq<seq<Cost>>, n: nat, cur: nat, cities: seq<nat>): (p: seq<nat>)
    requires IsMatrix(m, n) && cur < n && InRange(cities, n)
    ensures |p| == |cities| && InRange(p, n)
    decreases |cities|, 1
  {
    if cities == [] then [] else GreedyHop(m, n, cur, cities)
  }

  /** One round of the greedy loop and the walk after it: the nearest city,
      then the walk from it over the rest of the list. */
  function GreedyHop(m: seq<seq<Cost>>, n: nat, cur: nat, cities: seq<nat>): (p: seq<nat>)
    requires IsMatrix(m, n) && cur < n && InRange(cities, n) && cities != []
    ensures |p| == |cities| && InRange(p, n)
    decreases |cities|, 0
  {
    var c := Nearest(m, n, cur, cities);
    var rest := RemoveFirst(cities, c);
    RemoveFirstInRange(cities, c, n);
    [c] + GreedyPath(m, n, c, rest)
  }

  /** The greedy route from start city s. */
  function GreedyRoute(m: seq<seq<Cost>>, n: nat, s: nat): (r: seq<nat>)
    requires IsMatrix(m, n) && s < n
    ensures |r| == n && InRange(r, n) && r[0] == s
  {
    [s] + GreedyPath(m, n, s, Others(n, s))
  }

  /** The greedy walk visits each city of the working list once. */
  lemma {:induction false} GreedyPathPermutes(m: seq<seq<Cost>>, n: nat, cur: nat, cities: seq<nat>)
    requires IsMatrix(m, n) && cur < n && InRange(cities, n)
    ensures multiset(GreedyPath(m, n, cur, cities)) == multiset(cities)
    decreases |cities|
  {
    if cities != [] {
      var c := Nearest(m, n, cur, cities);
      var rest := RemoveFirst(cities, c);
      RemoveFirstInRange(cities, c, n);
      RemoveFirstCounts(cities, c);
      GreedyPathPermutes(m, n, c, rest);
      assert GreedyPath(m, n, cur, cities) == [c] + GreedyPath(m, n, c, rest);
      assert c in multiset(cities);
    }
  }

  /** Every greedy route is a tour: each city of the scenario occurs once. */
  lemma GreedyRouteIsTour(m: seq<seq<Cost>>, n: nat, s: nat)
    requires IsMatrix(m, n) && s < n
    ensures IsTour(GreedyRoute(m, n, s), n)
  {
    GreedyPathPermutes(m, n, s, Others(n, s));
    OthersAndStart(n, s);
  }

  /** From route[i] the walk went on to route[i + 1], and the later city
      route[j] is not strictly closer to route[i]. */
  predicate NoCloserLater(m: seq<seq<Cost>>, n: nat, r: seq<nat>, i: nat, j: nat)
    requires IsMatrix(m, n) && InRange(r, n) && i < j < |r|
  {
    Le(m[r[i]][r[i + 1]], m[r[i]][r[j]])
  }

  /** Each step of the walk r goes to a nearest city not yet visited: no
      city later in r is strictly closer to r[i] than r[i + 1]. */
  predicate VisitsNearestUnvisited(m: seq<seq<Cost>>, n: nat, r: seq<nat>)
    requires IsMatrix(m, n) && InRange(r, n)
  {
    forall i, j :: 0 <= i < j < |r| ==> NoCloserLater(m, n, r, i, j)
  }

  lemma GreedyPicksNearestUnvisited(m: seq<seq<Cost>>, n: nat, s: nat)
    requires IsMatrix(m, n) && s < n
    ensures VisitsNearestUnvisited(m, n, GreedyRoute(m, n, s))
  {
    GreedyPathNearest(m, n, s, Others(n, s));
  }

  lemma {:induction false} GreedyPathNearest(m: seq<seq<Cost>>, n: nat, cur: nat, cities: seq<nat>)
    requires IsMatrix(m, n) && cur < n && InRange(cities, n)
    ensures VisitsNearestUnvisited(m, n, [cur] + GreedyPath(m, n, cur, cities))
    decreases |cities|
  {
    if cities != [] {
      var c := Nearest(m, n, cur, cities);
      var rest := RemoveFirst(cities, c);
      RemoveFirstInRange(cities, c, n);
      assert GreedyPath(m, n, cur, cities) == [c] + GreedyPath(m, n, c, rest);
      var p := GreedyPath(m, n, cur, cities);
      GreedyPathNearest(m, n, c, rest);
      GreedyPathPermutes(m, n, cur, cities);
      forall j | 0 <= j < |p| ensures Le(m[cur][p[0]], m[cur][p[j]]) {
        assert p[j] in multiset(cities);
        NearestBeats(m, n, cur, cities, p[j]);
      }
      ConsVisitsNearest(m, n, cur, p);
    }
  }

  /** The nearest city of a list is at least as close as any city in it. */
  lemma NearestBeats(m: seq<seq<Cost>>, n: nat, cur: nat, cities: seq<nat>, x: nat)
    requires IsMatrix(m, n) && cur < n && InRange(cities, n) && x in cities
    ensures Le(m[cur][Nearest(m, n, cur, cities)], m[cur][x])
  {
    NearestIsLastClosest(m, n, cur, cities);
    var t :| 0 <= t < |cities| && cities[t] == x;
  }

  /** A walk that visits nearest unvisited cities stays one when it is
      entered from a city whose nearest city of the walk is its first. */
  lemma ConsVisitsNearest(m: seq<seq<Cost>>, n: nat, cur: nat, p: seq<nat>)
    requires IsMatrix(m, n) && cur < n && InRange(p, n) && p != []
    requires VisitsNearestUnvisited(m, n, p)
    requires forall j :: 0 <= j < |p| ==> Le(m[cur][p[0]], m[cur][p[j]])
    ensures VisitsNearestUnvisited(m, n, [cur] + p)
  {
    var r := [cur] + p;
    forall i, j | 0 <= i < j < |r| ensures NoCloserLater(m, n, r, i, j) {
      if i > 0 {
        assert NoCloserLater(m, n, p, i - 1, j - 1);
      }
    }
  }

  /** One round of the greedy loop: moving the nearest city from the
      working list to the end of the route keeps route + walk fixed. */
  lemma GreedyStep(m: seq<seq<Cost>>, n: nat, route: seq<nat>, cur: nat, cities: seq<nat>)
    requires IsMatrix(m, n) && cur < n && InRange(cities, n) && cities != []
    ensures var c := Nearest(m, n, cur, cities);
            && InRange(RemoveFirst(cities, c), n)
            && route + GreedyPath(m, n, cur, cities) == (route + [c]) + GreedyPath(m, n, c, RemoveFirst(cities, c))
  {
    RemoveFirstInRange(cities, Nearest(m, n, cur, cities), n);
  }

  /** The greedy attempt of greedy(): start at startCity and repeatedly
      append the closest remaining city. */
  method BuildGreedy(m: seq<seq<Cost>>, n: nat, startCity: nat) returns (route: seq<nat>)
    requires IsMatrix(m, n) && startCity < n
    ensures route == GreedyRoute(m, n, startCity)
  {
    var cities := Others(n, startCity);
    route := [startCity];
    var currentCity: nat := startCity;
    ghost var target := GreedyRoute(m, n, startCity);
    for i := 0 to n - 1
      invariant |cities| == n - 1 - i && InRange(cities, n) && currentCity < n
      invariant route + GreedyPath(m, n, currentCity, cities) == target
    {
      var closest := FindClosestCity(m, n, currentCity, cities);
      var c := closest.value;
      GreedyStep(m, n, route, currentCity, cities);
      route := route + [c];
      cities := RemoveFirst(cities, c);
      currentCity := c;
    }
    assert GreedyPath(m, n, currentCity, cities) == [];
  }

  // ------------------------------------------------------ nearest insertion

  /** Splice cities into route with addClosestCityToRoute until none is
      left; None as soon as a step raises. */
  function InsertNearest(m: seq<seq<Cost>>, n: nat, route: seq<nat>, cities: seq<nat>): (r: Option<seq<nat>>)
    requires IsMatrix(m, n) && InRange(route, n) && InRange(cities, n)
    ensures r.Some? ==> |r.value| == |route| + |cities| && InRange(r.value, n)
    decreases |cities|, 1
  {
    if cities == [] then Some(route) else InsertNearestStep(m, n, route, cities)
  }

  /** One round of nearest insertion and the rounds after it. */
  function InsertNearestStep(m: seq<seq<Cost>>, n: nat, route: seq<nat>, cities: seq<nat>): (r: Option<seq<nat>>)
    requires IsMatrix(m, n) && InRange(route, n) && InRange(cities, n) && cities != []
    ensures r.Some? ==> |r.value| == |route| + |cities| && InRange(r.value, n)
    decreases |cities|, 0
  {
    match NearestInsertion(m, n, route, cities)
    case None => None
    case Some(g) =>
      var rest := RemoveFirst(cities, g.city);
      RemoveFirstInRange(cities, g.city, n);
      InsertNearest(m, n, g.route, rest)
  }

  /** The nearest insertion route from start city s. */
  function NearestRoute(m: seq<seq<Cost>>, n: nat, s: nat): (r: Option<seq<nat>>)
    requires IsMatrix(m, n) && s < n
    ensures r.Some? ==> |r.value| == n && InRange(r.value, n)
  {
    InsertNearest(m, n, [s], Others(n, s))
  }

  /** Nearest insertion moves every city of the working list into the
      route, each exactly once. */
  lemma {:induction false} InsertNearestPermutes(m: seq<seq<Cost>>, n: nat, route: seq<nat>, cities: seq<nat>)
    requires IsMatrix(m, n) && InRange(route, n) && InRange(cities, n)
    ensures var r := InsertNearest(m, n, route, cities);
            r.Some? ==> multiset(r.value) == multiset(route) + multiset(cities)
    decreases |cities|
  {
    if cities != [] {
      var g := NearestInsertion(m, n, route, cities);
      if g.Some? {
        var rest := RemoveFirst(cities, g.value.city);
        RemoveFirstInRange(cities, g.value.city, n);
        RemoveFirstCounts(cities, g.value.city);
        InsertNearestPermutes(m, n, g.value.route, rest);
        assert g.value.city in multiset(cities);
      }
    }
  }

  lemma NearestRouteIsTour(m: seq<seq<Cost>>, n: nat, s: nat)
    requires IsMatrix(m, n) && s < n
    ensures NearestRoute(m, n, s).Some? ==> IsTour(NearestRoute(m, n, s).value, n)
  {
    InsertNearestPermutes(m, n, [s], Others(n, s));
    OthersAndStart(n, s);
  }

  /** The attempt of nearest_insertion and nearest_insertion_all from
      startCity. */
  method BuildNearest(m: seq<seq<Cost>>, n: nat, startCity: nat) returns (route: Option<seq<nat>>)
    requires IsMatrix(m, n) && startCity < n
    ensures route == NearestRoute(m, n, startCity)
  {
    var cities := Others(n, startCity);
    var r := [startCity];
    for i := 0 to n - 1
      invariant |cities| == n - 1 - i && InRange(cities, n) && InRange(r, n)
      invariant InsertNearest(m, n, r, cities) == NearestRoute(m, n, startCity)
    {
      var added := AddClosestCityToRoute(m, n, r, cities);
      if added.None? {
        return None;
      }
      RemoveFirstInRange(cities, added.value.city, n);
      r := added.value.route;
      cities := RemoveFirst(cities, added.value.city);
    }
    route := Some(r);
  }

  // ---------------------------------------------------- cheapest insertion

  /** Splice cities into route with addCheapestCityToRoute until none is
      left; None as soon as a step raises. */
  function InsertCheapest(m: seq<seq<Cost>>, n: nat, route: seq<nat>, cities: seq<nat>): (r: Option<seq<nat>>)
    requires IsMatrix(m, n) && InRange(route, n) && InRange(cities, n)
    ensures r.Some? ==> |r.value| == |route| + |cities| && InRange(r.value, n)
    decreases |cities|, 1
  {
    if cities == [] then Some(route) else InsertCheapestStep(m, n, route, cities)
  }

  /** One round of cheapest insertion and the rounds after it. */
  function InsertCheapestStep(m: seq<seq<Cost>>, n: nat, route: seq<nat>, cities: seq<nat>): (r: Option<seq<nat>>)
    requires IsMatrix(m, n) && InRange(route, n) && InRange(cities, n) && cities != []
    ensures r.Some? ==> |r.value| == |route| + |cities| && InRange(r.value, n)
    decreases |cities|, 0
  {
    match CheapestInsertion(m, n, route, cities)
    case None => None
    case Some(g) =>
      var rest := RemoveFirst(cities, g.city);
      RemoveFirstInRange(cities, g.city, n);
      InsertCheapest(m, n, g.route, rest)
  }

  /** The cheapest insertion route from start city s: the second city is
      placed by addClosestCityToRoute, the others by addCheapestCityToRoute.
      With a single city the first step already has nothing to add and
      raises. */
  function CheapestRoute(m: seq<seq<Cost>>, n: nat, s: nat): (r: Option<seq<nat>>)
    requires IsMatrix(m, n) && s < n
    ensures r.Some? ==> |r.value| == n && InRange(r.value, n)
  {
    var cities := Others(n, s);
    match NearestInsertion(m, n, [s], cities)
    case None => None
    case Some(g) =>
      RemoveFirstInRange(cities, g.city, n);
      InsertCheapest(m, n, g.route, RemoveFirst(cities, g.city))
  }

  /** Cheapest insertion moves every city of the working list into the
      route, each exactly once. */
  lemma {:induction false} InsertCheapestPermutes(m: seq<seq<Cost>>, n: nat, route: seq<nat>, cities: seq<nat>)
    requires IsMatrix(m, n) && InRange(route, n) && InRange(cities, n)
    ensures var r := InsertCheapest(m, n, route, cities);
            r.Some? ==> multiset(r.value) == multiset(route) + multiset(cities)
    decreases |cities|
  {
    if cities != [] {
      var g := CheapestInsertion(m, n, route, cities);
      if g.Some? {
        var rest := RemoveFirst(cities, g.value.city);
        RemoveFirstInRange(cities, g.value.city, n);
        RemoveFirstCounts(cities, g.value.city);
        InsertCheapestPermutes(m, n, g.value.route, rest);
        assert g.value.city in multiset(cities);
      }
    }
  }

  lemma CheapestRouteIsTour(m: seq<seq<Cost>>, n: nat, s: nat)
    requires IsMatrix(m, n) && s < n
    ensures CheapestRoute(m, n, s).Some? ==> IsTour(CheapestRoute(m, n, s).value, n)
  {
    var cities := Others(n, s);
    var g := NearestInsertion(m, n, [s], cities);
    if g.Some? {
      var c := g.value.city;
      RemoveFirstInRange(cities, c, n);
      var rest := RemoveFirst(cities, c);
      InsertCheapestPermutes(m, n, g.value.route, rest);
      var r := InsertCheapest(m, n, g.value.route, rest);
      if r.Some? {
        SeededTour(n, s, g.value.route, c, r.value);
      }
    }
  }

  /** A route grown from [s] by one city c of the others and then by the
      rest of the others is a tour. */
  lemma SeededTour(n: nat, s: nat, seed: seq<nat>, c: nat, r: seq<nat>)
    requires s < n && c in Others(n, s)
    requires multiset(seed) == multiset{s} + multiset{c}
    requires multiset(r) == multiset(seed) + multiset(RemoveFirst(Others(n, s), c))
    ensures IsTour(r, n)
  {
    var cities := Others(n, s);
    assert c in multiset(cities);
    OthersAndStart(n, s);
    RemoveFirstCounts(cities, c);
  }

  /** With a single city cheapest_insertion raises: addClosestCityToRoute
      gets an empty working list. */
  lemma CheapestSingleCityRaises(m: seq<seq<Cost>>, s: nat)
    requires IsMatrix(m, 1) && s < 1
    ensures CheapestRoute(m, 1, s).None?
  {
    NearestInsertionRaises(m, 1, [s], Others(1, s));
  }

  /** The attempt of cheapest_insertion from startCity. */
  method BuildCheapest(m: seq<seq<Cost>>, n: nat, startCity: nat) returns (route: Option<seq<nat>>)
    requires IsMatrix(m, n) && startCity < n
    ensures route == CheapestRoute(m, n, startCity)
  {
    var cities := Others(n, startCity);
    var first := AddClosestCityToRoute(m, n, [startCity], cities);
    if first.None? {
      return None;
    }
    RemoveFirstInRange(cities, first.value.city, n);
    var r := first.value.route;
    cities := RemoveFirst(cities, first.value.city);
    for i := 0 to n - 2
      invariant |cities| == n - 2 - i && InRange(cities, n) && InRange(r, n)
      invariant InsertCheapest(m, n, r, cities) == CheapestRoute(m, n, startCity)
    {
      var added := AddCheapestCityToRoute(m, n, r, cities);
      if added.None? {
        return None;
      }
      RemoveFirstInRange(cities, added.value.city, n);
      r := added.value.route;
      cities := RemoveFirst(cities, added.value.city);
    }
    route := Some(r);
  }
}
