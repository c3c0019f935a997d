/** The solver's entry points that build tours: greedy, nearest_insertion,
    cheapest_insertion and defaultRandomTour retry one attempt after another
    until an attempt is a feasible tour, nearest_insertion_all tries every
    start city and keeps the cheapest tour.  Each entry point is a method
    with the solver's loop, proved equal to a function over the list of
    attempts; lemmas state what that function reports.

    The clock is a budget: the solver's time test passes for the first
    `budget` times it is made (each time the loop condition reaches it, one
    per attempt).  defaultRandomTour receives the permutations it draws. */
module Solver {
  import opened Costs
  import opened Tours
  import opened Scans
  import opened Steps
  import opened Attempts

  datatype Algorithm = GreedyAlg | NearestAlg | CheapestAlg

  /** The 'cost', 'count' and 'soln' entries of the results dictionary. */
  datatype Report = Report(cost: Cost, count: nat, soln: Option<seq<nat>>)

  /** What an entry point returns: a report, or Crashed where it raises. */
  datatype Outcome = Crashed | Done(report: Report)

  /** The attempt of alg from start city s; None where it raises. */
  function Attempt(m: seq<seq<Cost>>, n: nat, alg: Algorithm, s: nat): (r: Option<seq<nat>>)
    requires IsMatrix(m, n) && s < n
    ensures r.Some? ==> |r.value| == n && InRange(r.value, n)
  {
    match alg
    case GreedyAlg => Some(GreedyRoute(m, n, s))
    case NearestAlg => NearestRoute(m, n, s)
    case CheapestAlg => CheapestRoute(m, n, s)
  }

  /** Every route an attempt builds visits each city exactly once. */
  lemma AttemptIsTour(m: seq<seq<Cost>>, n: nat, alg: Algorithm, s: nat)
    requires IsMatrix(m, n) && s < n
    ensures Attempt(m, n, alg, s).Some? ==> IsTour(Attempt(m, n, alg, s).value, n)
  {
    match alg
    case GreedyAlg => GreedyRouteIsTour(m, n, s);
    case NearestAlg => NearestRouteIsTour(m, n, s);
    case CheapestAlg => CheapestRouteIsTour(m, n, s);
  }

  // ------------------------------------------------------ retry until found

  /** Every route among the attempts names cities of the scenario. */
  predicate WellFormed(n: nat, tries: seq<Option<seq<nat>>>) {
    forall k :: 0 <= k < |tries| && tries[k].Some? ==> InRange(tries[k].value, n)
  }

  /** Attempt j built a route and the route is not a feasible tour. */
  predicate Rejected(m: seq<seq<Cost>>, n: nat, tries: seq<Option<seq<nat>>>, j: nat)
    requires IsMatrix(m, n) && WellFormed(n, tries) && j < |tries|
  {
    tries[j].Some? && !Feasible(m, n, tries[j].value)
  }

  /** The retry loop from attempt i on, last being the solution evaluated
      most recently: the loop evaluates attempts in order and stops at the
      first feasible one, or when the attempts run out. */
  function RetryFrom(m: seq<seq<Cost>>, n: nat, tries: seq<Option<seq<nat>>>, i: nat, last: Option<seq<nat>>): Outcome
    requires IsMatrix(m, n) && WellFormed(n, tries) && i <= |tries|
    decreases |tries| - i
  {
    if i == |tries| then Done(Report(Inf, i, last))
    else
      match tries[i]
      case None => Crashed
      case Some(r) =>
        if Feasible(m, n, r) then Done(Report(CycleCost(m, n, r), i + 1, Some(r)))
        else RetryFrom(m, n, tries, i + 1, Some(r))
  }

  function Retry(m: seq<seq<Cost>>, n: nat, tries: seq<Option<seq<nat>>>): Outcome
    requires IsMatrix(m, n) && WellFormed(n, tries)
  {
    RetryFrom(m, n, tries, 0, None)
  }

  /** What a retry loop reports:
      - it raises exactly when an attempt raises before any attempt is
        feasible;
      - a finite cost is the cost of the last attempt made, which is
        feasible and is the solution reported, every earlier one having been
        rejected;
      - an infinite cost means every attempt was made and rejected, and the
        solution is the last one evaluated (None if there was none). */
  lemma RetryReports(m: seq<seq<Cost>>, n: nat, tries: seq<Option<seq<nat>>>)
    requires IsMatrix(m, n) && WellFormed(n, tries)
    ensures Retry(m, n, tries).Crashed? <==>
            exists k :: 0 <= k < |tries| && tries[k].None? &&
                        forall j :: 0 <= j < k ==> Rejected(m, n, tries, j)
    ensures Retry(m, n, tries).Done? ==> Retry(m, n, tries).report.count <= |tries|
    ensures Retry(m, n, tries).Done? && Retry(m, n, tries).report.cost.Fin? ==>
            RetryFound(m, n, tries, Retry(m, n, tries).report)
    ensures Retry(m, n, tries).Done? && Retry(m, n, tries).report.cost.Inf? ==>
            var rep := Retry(m, n, tries).report;
            && rep.count == |tries|
            && rep.soln == (if tries == [] then None else tries[|tries| - 1])
            && forall j :: 0 <= j < |tries| ==> Rejected(m, n, tries, j)
  {
    RetryFromReports(m, n, tries, 0, None);
  }

  /** A report of finite cost: its count is the number of attempts made, the
      last of which is the solution reported, a feasible tour whose cost is
      the cost reported, and every earlier attempt was rejected. */
  predicate RetryFound(m: seq<seq<Cost>>, n: nat, tries: seq<Option<seq<nat>>>, rep: Report)
    requires IsMatrix(m, n) && WellFormed(n, tries)
  {
    && 0 < rep.count <= |tries|
    && rep.soln == tries[rep.count - 1]
    && rep.soln.Some?
    && Feasible(m, n, rep.soln.value)
    && rep.cost == CycleCost(m, n, rep.soln.value)
    && forall j :: 0 <= j < rep.count - 1 ==> Rejected(m, n, tries, j)
  }

  lemma {:induction false} RetryFromReports(m: seq<seq<Cost>>, n: nat, tries: seq<Option<seq<nat>>>, i: nat, last: Option<seq<nat>>)
    requires IsMatrix(m, n) && WellFormed(n, tries) && i <= |tries|
    requires last == (if i == 0 then None else tries[i - 1])
    requires forall j :: 0 <= j < i ==> Rejected(m, n, tries, j)
    ensures RetryFrom(m, n, tries, i, last).Crashed? <==>
            exists k :: i <= k < |tries| && tries[k].None? &&
                        forall j :: 0 <= j < k ==> Rejected(m, n, tries, j)
    ensures RetryFrom(m, n, tries, i, last).Done? ==> RetryFrom(m, n, tries, i, last).report.count <= |tries|
    ensures RetryFrom(m, n, tries, i, last).Done? && RetryFrom(m, n, tries, i, last).report.cost.Fin? ==>
            RetryFound(m, n, tries, RetryFrom(m, n, tries, i, last).report)
    ensures RetryFrom(m, n, tries, i, last).Done? && RetryFrom(m, n, tries, i, last).report.cost.Inf? ==>
            var rep := RetryFrom(m, n, tries, i, last).report;
            && rep.count == |tries|
            && rep.soln == (if tries == [] then None else tries[|tries| - 1])
            && forall j :: 0 <= j < |tries| ==> Rejected(m, n, tries, j)
    decreases |tries| - i
  {
    if i < |tries| {
      if tries[i].None? {
        assert forall j :: 0 <= j < i ==> Rejected(m, n, tries, j);
      } else if !Feasible(m, n, tries[i].value) {
        assert Rejected(m, n, tries, i);
        RetryFromReports(m, n, tries, i + 1, tries[i]);
        if exists k :: i <= k < |tries| && tries[k].None? && forall j :: 0 <= j < k ==> Rejected(m, n, tries, j) {
          var k :| i <= k < |tries| && tries[k].None? &&
                   forall j :: 0 <= j < k ==> Rejected(m, n, tries, j);
          assert i + 1 <= k;
        }
      } else {
        forall k | i <= k < |tries| && tries[k].None?
          ensures !forall j :: 0 <= j < k ==> Rejected(m, n, tries, j)
        {
          assert !Rejected(m, n, tries, i);
        }
      }
    }
  }

  /** The attempts from start cities 0 .. k - 1. */
  function Tries(m: seq<seq<Cost>>, n: nat, alg: Algorithm, k: nat): (t: seq<Option<seq<nat>>>)
    requires IsMatrix(m, n) && k <= n
    ensures |t| == k && WellFormed(n, t)
    decreases k, 1
  {
    if k == 0 then [] else TriesThrough(m, n, alg, k - 1)
  }

  /** The attempts from start cities 0 .. last. */
  function TriesThrough(m: seq<seq<Cost>>, n: nat, alg: Algorithm, last: nat): (t: seq<Option<seq<nat>>>)
    requires IsMatrix(m, n) && last < n
    ensures |t| == last + 1 && WellFormed(n, t)
    decreases last + 1, 0
  {
    Tries(m, n, alg, last) + [Attempt(m, n, alg, last)]
  }

  lemma {:induction false} TriesAt(m: seq<seq<Cost>>, n: nat, alg: Algorithm, k: nat, s: nat)
    requires IsMatrix(m, n) && s < k <= n
    ensures Tries(m, n, alg, k)[s] == Attempt(m, n, alg, s)
    decreases k
  {
    if s < k - 1 {
      TriesAt(m, n, alg, k - 1, s);
    }
  }

  /** Fewer start cities give the same attempts, as far as they go. */
  lemma TriesAgree(m: seq<seq<Cost>>, n: nat, alg: Algorithm, j: nat, k: nat, s: nat)
    requires IsMatrix(m, n) && s < j <= k <= n
    ensures Tries(m, n, alg, j)[s] == Tries(m, n, alg, k)[s]
  {
    TriesAt(m, n, alg, j, s);
    TriesAt(m, n, alg, k, s);
  }

  /** How many start cities greedy, nearest_insertion and
      cheapest_insertion try at most: one per city, as long as the clock
      lasts. */
  function Starts(n: nat, budget: nat): (k: nat)
    ensures k <= n && k <= budget && (k == n || k == budget)
  {
    if budget < n then budget else n
  }

  function RetryOutcome(m: seq<seq<Cost>>, n: nat, alg: Algorithm, budget: nat): Outcome
    requires IsMatrix(m, n)
  {
    Retry(m, n, Tries(m, n, alg, Starts(n, budget)))
  }

  /** What greedy, nearest_insertion and cheapest_insertion report, in the
      terms of their start cities: a count that never exceeds the number of
      cities, and a solution that, when the cost is finite, is a feasible
      tour built from the last start tried. */
  lemma RetryOutcomeReports(m: seq<seq<Cost>>, n: nat, alg: Algorithm, budget: nat)
    requires IsMatrix(m, n)
    ensures RetryOutcome(m, n, alg, budget).Done? ==>
            RetryOutcome(m, n, alg, budget).report.count <= n &&
            RetryOutcome(m, n, alg, budget).report.count <= budget
    ensures RetryOutcome(m, n, alg, budget).Done? && RetryOutcome(m, n, alg, budget).report.cost.Fin? ==>
            var rep := RetryOutcome(m, n, alg, budget).report;
            && 0 < rep.count <= n
            && rep.soln == Attempt(m, n, alg, rep.count - 1)
            && rep.soln.Some?
            && IsTour(rep.soln.value, n)
            && rep.cost == CycleCost(m, n, rep.soln.value)
  {
    var k := Starts(n, budget);
    var t := Tries(m, n, alg, k);
    RetryReports(m, n, t);
    var o := Retry(m, n, t);
    if o.Done? && o.report.cost.Fin? {
      assert RetryFound(m, n, t, o.report);
      TriedTour(m, n, alg, k, o.report.count - 1);
    }
  }

  /** Attempt s among the attempts, and it is a tour when it was built. */
  lemma TriedTour(m: seq<seq<Cost>>, n: nat, alg: Algorithm, k: nat, s: nat)
    requires IsMatrix(m, n) && s < k <= n
    ensures Tries(m, n, alg, k)[s] == Attempt(m, n, alg, s)
    ensures Attempt(m, n, alg, s).Some? ==> IsTour(Attempt(m, n, alg, s).value, n)
  {
    TriesAt(m, n, alg, k, s);
    AttemptIsTour(m, n, alg, s);
  }

  /** One attempt, by the constructor of alg. */
  method RunAttempt(m: seq<seq<Cost>>, n: nat, alg: Algorithm, s: nat, ghost k: nat) returns (route: Option<seq<nat>>)
    requires IsMatrix(m, n) && s < k <= n
    ensures route == Tries(m, n, alg, k)[s]
  {
    TriesAt(m, n, alg, k, s);
    match alg {
      case GreedyAlg =>
        var r := BuildGreedy(m, n, s);
        route := Some(r);
      case NearestAlg =>
        route := BuildNearest(m, n, s);
      case CheapestAlg =>
        route := BuildCheapest(m, n, s);
    }
  }

  /** greedy(), nearest_insertion() and cheapest_insertion(). */
  method RetryStarts(m: seq<seq<Cost>>, n: nat, alg: Algorithm, budget: nat) returns (out: Outcome)
    requires IsMatrix(m, n)
    ensures out == RetryOutcome(m, n, alg, budget)
  {
    ghost var tries := Tries(m, n, alg, Starts(n, budget));
    var foundTour := false;
    var count: nat := 0;
    var bssf: Option<seq<nat>> := None;
    while !foundTour && count < budget && count < n
      invariant count <= |tries|
      invariant bssf == (if count == 0 then None else tries[count - 1])
      invariant !foundTour ==> RetryFrom(m, n, tries, count, bssf) == RetryOutcome(m, n, alg, budget)
      invariant foundTour ==> bssf.Some? && InRange(bssf.value, n) && Feasible(m, n, bssf.value) &&
                              RetryOutcome(m, n, alg, budget) == Done(Report(CycleCost(m, n, bssf.value), count, bssf))
      decreases n - count
    {
      var route := RunAttempt(m, n, alg, count, Starts(n, budget));
      if route.None? {
        return Crashed;
      }
      bssf := route;
      count := count + 1;
      var cost := CycleCost(m, n, route.value);
      foundTour := cost.Fin?;
    }
    var cost := if foundTour then CycleCost(m, n, bssf.value) else Inf;
    out := Done(Report(cost, count, bssf));
  }

  // ----------------------------------------------------- random permutations

  /** The attempts of defaultRandomTour: the route of each permutation drawn
      lists cities[perm[0]], cities[perm[1]], ... */
  function RandomTries(n: nat, perms: seq<seq<nat>>): (t: seq<Option<seq<nat>>>)
    requires forall p :: p in perms ==> IsTour(p, n)
    ensures |t| == |perms| && WellFormed(n, t)
    ensures forall k :: 0 <= k < |t| ==> t[k] == Some(perms[k])
  {
    PermsInRange(n, perms);
    seq(|perms|, k requires 0 <= k < |perms| => Some(perms[k]))
  }

  lemma PermsInRange(n: nat, perms: seq<seq<nat>>)
    requires forall p :: p in perms ==> IsTour(p, n)
    ensures forall k :: 0 <= k < |perms| ==> InRange(perms[k], n)
  {
    forall k | 0 <= k < |perms| ensures InRange(perms[k], n) {
      assert perms[k] in perms;
      TourVisitsEachOnce(perms[k], n);
    }
  }

  /** defaultRandomTour(): perms are the permutations np.random.permutation
      returns, one per attempt the clock allows. */
  method DefaultRandomTour(m: seq<seq<Cost>>, n: nat, perms: seq<seq<nat>>) returns (out: Outcome)
    requires IsMatrix(m, n)
    requires forall p :: p in perms ==> IsTour(p, n)
    ensures out == Retry(m, n, RandomTries(n, perms))
  {
    ghost var tries := RandomTries(n, perms);
    var cities := Iota(n);
    var foundTour := false;
    var count: nat := 0;
    var bssf: Option<seq<nat>> := None;
    while !foundTour && count < |perms|
      invariant count <= |tries|
      invariant bssf == (if count == 0 then None else tries[count - 1])
      invariant !foundTour ==> RetryFrom(m, n, tries, count, bssf) == Retry(m, n, tries)
      invariant foundTour ==> bssf.Some? && InRange(bssf.value, n) && Feasible(m, n, bssf.value) &&
                              Retry(m, n, tries) == Done(Report(CycleCost(m, n, bssf.value), count, bssf))
      decreases |perms| - count
    {
      var perm := perms[count];
      TourVisitsEachOnce(perm, n);
      var route := [];
      for i := 0 to n
        invariant route == perm[..i]
      {
        route := route + [cities[perm[i]]];
      }
      assert route == perm;
      bssf := Some(route);
      count := count + 1;
      var cost := CycleCost(m, n, route);
      foundTour := cost.Fin?;
    }
    var cost := if foundTour then CycleCost(m, n, bssf.value) else Inf;
    out := Done(Report(cost, count, bssf));
  }

  /** defaultRandomTour never raises, and a finite cost comes with the
      permutation drawn last, which is a feasible tour. */
  lemma RandomReports(m: seq<seq<Cost>>, n: nat, perms: seq<seq<nat>>)
    requires IsMatrix(m, n)
    requires forall p :: p in perms ==> IsTour(p, n)
    ensures Retry(m, n, RandomTries(n, perms)).Done?
    ensures var rep := Retry(m, n, RandomTries(n, perms)).report;
            rep.count <= |perms| &&
            (rep.cost.Fin? ==> 0 < rep.count && rep.soln == Some(perms[rep.count - 1]) &&
                               IsTour(perms[rep.count - 1], n) && Feasible(m, n, perms[rep.count - 1]))
  {
    var t := RandomTries(n, perms);
    RetryReports(m, n, t);
    var rep := Retry(m, n, t).report;
    if rep.cost.Fin? {
      assert perms[rep.count - 1] in perms;
    }
  }

  // -------------------------------------------------------------- all starts

  /** The cost of each attempt; Inf where none was built. */
  function AttemptCosts(m: seq<seq<Cost>>, n: nat, tries: seq<Option<seq<nat>>>): (cs: seq<Cost>)
    requires IsMatrix(m, n) && WellFormed(n, tries)
    ensures |cs| == |tries|
    ensures forall k :: 0 <= k < |tries| && tries[k].Some? ==> cs[k] == CycleCost(m, n, tries[k].value)
  {
    seq(|tries|, k requires 0 <= k < |tries| =>
      if tries[k].Some? then CycleCost(m, n, tries[k].value) else Inf)
  }

  /** The loop of nearest_insertion_all over the attempts: it raises if
      an attempt raises; otherwise it keeps the first attempt of least finite
      cost (strict `<` against the best so far, starting from infinity), and
      reports the last loop index plus one as the count. */
  function BestOf(m: seq<seq<Cost>>, n: nat, tries: seq<Option<seq<nat>>>): Outcome
    requires IsMatrix(m, n) && WellFormed(n, tries)
  {
    if exists k :: 0 <= k < |tries| && tries[k].None? then Crashed
    else
      var costs := AttemptCosts(m, n, tries);
      var count := if tries == [] then 1 else |tries|;
      match FirstFiniteMin(costs)
      case None => Done(Report(Inf, count, None))
      case Some(k) => Done(Report(costs[k], count, tries[k]))
  }

  /** What the loop of nearest_insertion_all reports: it raises exactly
      when an attempt raises; otherwise the count of attempts (1 when there
      are none), a cost no greater than that of any attempt, from the first
      attempt of that cost, and no solution, at infinite cost, exactly when
      every attempt is rejected. */
  lemma BestOfReports(m: seq<seq<Cost>>, n: nat, tries: seq<Option<seq<nat>>>)
    requires IsMatrix(m, n) && WellFormed(n, tries)
    ensures BestOf(m, n, tries).Crashed? <==> exists k :: 0 <= k < |tries| && tries[k].None?
    ensures BestOf(m, n, tries).Done? ==>
            var costs := AttemptCosts(m, n, tries);
            var rep := BestOf(m, n, tries).report;
            && rep.count == (if tries == [] then 1 else |tries|)
            && (rep.soln.None? <==> forall s :: 0 <= s < |tries| ==> Rejected(m, n, tries, s))
            && (rep.soln.None? ==> rep.cost == Inf)
            && (forall s :: 0 <= s < |tries| ==> Le(rep.cost, costs[s]))
            && (rep.soln.Some? ==> exists k: nat :: IsFirstFiniteMin(costs, k) && rep.soln == tries[k] && rep.cost == costs[k])
  {
    if BestOf(m, n, tries).Done? {
      var costs := AttemptCosts(m, n, tries);
      FirstFiniteMinIsFirst(costs);
      var fm := FirstFiniteMin(costs);
      if fm.Some? {
        assert IsFirstFiniteMin(costs, fm.value);
      }
      forall s | 0 <= s < |tries| ensures Rejected(m, n, tries, s) <==> costs[s].Inf? {
        assert tries[s].Some?;
      }
    }
  }

  /** nearest_insertion_all(): it ignores the clock and makes an attempt
      from every start city. */
  function AllStartsOutcome(m: seq<seq<Cost>>, n: nat): Outcome
    requires IsMatrix(m, n)
  {
    BestOf(m, n, Tries(m, n, NearestAlg, n))
  }

  /** nearest_insertion_all raises exactly when the attempt from some start
      city raises. */
  lemma AllStartsCrashes(m: seq<seq<Cost>>, n: nat)
    requires IsMatrix(m, n)
    ensures AllStartsOutcome(m, n).Crashed? <==> exists s :: 0 <= s < n && NearestRoute(m, n, s).None?
  {
    var tries := Tries(m, n, NearestAlg, n);
    BestOfReports(m, n, tries);
    if exists s :: 0 <= s < n && NearestRoute(m, n, s).None? {
      var s :| 0 <= s < n && NearestRoute(m, n, s).None?;
      TriesAt(m, n, NearestAlg, n, s);
    }
    if exists k :: 0 <= k < n && tries[k].None? {
      var k :| 0 <= k < n && tries[k].None?;
      TriesAt(m, n, NearestAlg, n, k);
    }
  }

  /** The solution nearest_insertion_all keeps is a feasible tour, and the
      cost it reports is that tour's cost. */
  lemma AllStartsSolution(m: seq<seq<Cost>>, n: nat)
    requires IsMatrix(m, n)
    ensures AllStartsOutcome(m, n).Done? && AllStartsOutcome(m, n).report.soln.Some? ==>
            var rep := AllStartsOutcome(m, n).report;
            IsTour(rep.soln.value, n) && Feasible(m, n, rep.soln.value) && rep.cost == CycleCost(m, n, rep.soln.value)
  {
    var tries := Tries(m, n, NearestAlg, n);
    BestOfReports(m, n, tries);
    var out := AllStartsOutcome(m, n);
    if out.Done? && out.report.soln.Some? {
      var k: nat :| IsFirstFiniteMin(AttemptCosts(m, n, tries), k) && out.report.soln == tries[k] &&
                    out.report.cost == AttemptCosts(m, n, tries)[k];
      TriedTour(m, n, NearestAlg, n, k);
    }
  }

  /** nearest_insertion_all finds a tour at least as cheap as what
      nearest_insertion reports, whatever the clock allows the latter. */
  lemma AllStartsBeatsRetry(m: seq<seq<Cost>>, n: nat, budget: nat)
    requires IsMatrix(m, n) && AllStartsOutcome(m, n).Done?
    ensures RetryOutcome(m, n, NearestAlg, budget).Done?
    ensures Le(AllStartsOutcome(m, n).report.cost, RetryOutcome(m, n, NearestAlg, budget).report.cost)
  {
    var k := Starts(n, budget);
    forall s | 0 <= s < k ensures Tries(m, n, NearestAlg, k)[s] == Tries(m, n, NearestAlg, n)[s] {
      TriesAgree(m, n, NearestAlg, k, n, s);
    }
    BestOfBeatsRetry(m, n, Tries(m, n, NearestAlg, n), Tries(m, n, NearestAlg, k));
  }

  /** Keeping the best of all attempts does at least as well as retrying
      over the first of them. */
  lemma BestOfBeatsRetry(m: seq<seq<Cost>>, n: nat, all: seq<Option<seq<nat>>>, tries: seq<Option<seq<nat>>>)
    requires IsMatrix(m, n) && WellFormed(n, all) && WellFormed(n, tries)
    requires |tries| <= |all| && forall s :: 0 <= s < |tries| ==> tries[s] == all[s]
    requires BestOf(m, n, all).Done?
    ensures Retry(m, n, tries).Done?
    ensures Le(BestOf(m, n, all).report.cost, Retry(m, n, tries).report.cost)
  {
    BestOfReports(m, n, all);
    RetryReports(m, n, tries);
    var rep := Retry(m, n, tries).report;
    if rep.cost.Fin? {
      assert RetryFound(m, n, tries, rep);
      assert AttemptCosts(m, n, all)[rep.count - 1] == rep.cost;
    }
  }

  /** nearest_insertion_all(). */
  method NearestInsertionAll(m: seq<seq<Cost>>, n: nat) returns (out: Outcome)
    requires IsMatrix(m, n)
    ensures out == AllStartsOutcome(m, n)
  {
    ghost var tries := Tries(m, n, NearestAlg, n);
    ghost var costs := AttemptCosts(m, n, tries);
    var foundTour := false;
    var count: nat := 0;
    var bestCost := Inf;
    var bestBssf: Option<seq<nat>> := None;
    for k := 0 to n
      invariant count == (if k == 0 then 0 else k - 1)
      invariant forall j :: 0 <= j < k ==> tries[j].Some?
      invariant FirstFiniteMin(costs[..k]).None? ==> !foundTour && bestCost == Inf && bestBssf.None?
      invariant FirstFiniteMin(costs[..k]).Some? ==>
                  foundTour && bestCost == costs[FirstFiniteMin(costs[..k]).value] &&
                  bestBssf == tries[FirstFiniteMin(costs[..k]).value]
    {
      count := k;
      var route := RunAttempt(m, n, NearestAlg, k, n);
      if route.None? {
        return Crashed;
      }
      assert tries[k] == route;
      assert forall j :: 0 <= j < k + 1 ==> tries[j].Some?;
      var cost := CycleCost(m, n, route.value);
      assert cost == costs[k];
      FirstFiniteMinStep(costs, k);
      if cost.Fin? {
        foundTour := true;
      }
      if Lt(cost, bestCost) {
        bestCost := cost;
        bestBssf := route;
      }
    }
    assert costs[..n] == costs;
    var cost := if foundTour then bestCost else Inf;
    out := Done(Report(cost, count + 1, bestBssf));
  }
}
