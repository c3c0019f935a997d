/** Routes: the scenario's city list, the list operations the solver applies
    to routes and working city lists, and the cost of a route read as a
    cycle (the contract assumed of TSPSolution.cost). */
module Tours {
  import opened Costs

  /** The scenario's city list: the cities 0, 1, ..., n-1 in order. */
  function Iota(n: nat): (s: seq<nat>)
    ensures |s| == n && InRange(s, n)
    ensures forall i :: 0 <= i < n ==> s[i] == i
  {
    if n == 0 then [] else Iota(n - 1) + [n - 1]
  }

  /** Each of the n cities occurs exactly once in the city list. */
  lemma {:induction false} IotaCounts(n: nat)
    ensures forall c: nat :: multiset(Iota(n))[c] == if c < n then 1 else 0
  {
    if n > 0 {
      var last: nat := n - 1;
      IotaCounts(last);
      assert multiset(Iota(n)) == multiset(Iota(last)) + multiset{last} by {
        assert Iota(n) == Iota(last) + [last];
      }
    }
  }

  /** A route visits every city of the scenario exactly once. */
  predicate IsTour(route: seq<nat>, n: nat) {
    multiset(route) == multiset(Iota(n))
  }

  lemma TourVisitsEachOnce(route: seq<nat>, n: nat)
    requires IsTour(route, n)
    ensures |route| == n && InRange(route, n)
    ensures forall c: nat :: c < n ==> multiset(route)[c] == 1
    ensures forall i, j :: 0 <= i < j < |route| ==> route[i] != route[j]
  {
    IotaCounts(n);
    assert |route| == |multiset(route)| == |multiset(Iota(n))| == n;
    forall i | 0 <= i < |route| ensures route[i] < n {
      assert multiset(route)[route[i]] > 0;
    }
    forall i, j | 0 <= i < j < |route| ensures route[i] != route[j] {
      if route[i] == route[j] {
        RepeatCounted(route, i, j);
      }
    }
  }

  lemma RepeatCounted(s: seq<nat>, i: nat, j: nat)
    requires i < j < |s| && s[i] == s[j]
    ensures multiset(s)[s[i]] >= 2
  {
    assert s == s[..j] + s[j..];
    assert s[..j][i] == s[i] && s[j..][0] == s[i];
    assert s[i] in s[..j] && s[i] in s[j..];
  }

  /** The position after i in a cyclic route of length len: `(i + 1) % len`. */
  function Succ(i: nat, len: nat): (j: nat)
    requires i < len
    ensures j < len && j == (i + 1) % len
  {
    if i + 1 < len then i + 1 else 0
  }

  /** The position before i in a cyclic route of length len: Python's
      `route[i - 1]`, which reads the last element when i is 0. */
  function Pred(i: nat, len: nat): (j: nat)
    requires i < len
    ensures j < len && j == (i - 1) % len
  {
    if i > 0 then i - 1 else len - 1
  }

  /** list.remove(x), for an x the list holds. */
  function RemoveFirst(s: seq<nat>, x: nat): (r: seq<nat>)
    requires x in s
    ensures |r| == |s| - 1
  {
    if s[0] == x then s[1..]
    else
      assert x in s[1..] by { assert s == [s[0]] + s[1..]; }
      [s[0]] + RemoveFirst(s[1..], x)
  }

  /** r is s without its element at p, and p is the first position of x
      in s. */
  predicate RemovedFirstAt(s: seq<nat>, x: nat, r: seq<nat>, p: nat) {
    && p < |s| && s[p] == x
    && (forall j :: 0 <= j < p ==> s[j] != x)
    && r == s[..p] + s[p + 1..]
  }

  /** list.remove(x) drops the first occurrence of x and keeps the order of
      the other elements. */
  lemma {:induction false} RemoveFirstIsFirst(s: seq<nat>, x: nat)
    requires x in s
    ensures exists p :: RemovedFirstAt(s, x, RemoveFirst(s, x), p)
  {
    if s[0] == x {
      assert RemovedFirstAt(s, x, RemoveFirst(s, x), 0);
    } else {
      var t := s[1..];
      assert x in t by { assert s == [s[0]] + t; }
      RemoveFirstIsFirst(t, x);
      var q: nat :| RemovedFirstAt(t, x, RemoveFirst(t, x), q);
      var p := q + 1;
      assert RemoveFirst(s, x) == s[..p] + s[p + 1..] by {
        assert s[..p] == [s[0]] + t[..q];
        assert s[p + 1..] == t[q + 1..];
      }
      assert RemovedFirstAt(s, x, RemoveFirst(s, x), p);
    }
  }

  /** list.remove(x) takes one x out of the multiset of the list. */
  lemma {:induction false} RemoveFirstCounts(s: seq<nat>, x: nat)
    requires x in s
    ensures multiset(RemoveFirst(s, x)) == multiset(s) - multiset{x}
  {
    assert s == [s[0]] + s[1..];
    if s[0] != x {
      RemoveFirstCounts(s[1..], x);
    }
  }

  lemma RemoveFirstInRange(s: seq<nat>, x: nat, n: nat)
    requires x in s && InRange(s, n)
    ensures InRange(RemoveFirst(s, x), n)
  {
    var r := RemoveFirst(s, x);
    RemoveFirstCounts(s, x);
    forall k | 0 <= k < |r| ensures r[k] < n {
      assert r[k] in multiset(r);
      assert r[k] in s;
    }
  }

  /** list.insert(p, x) with 0 <= p <= |s|: x lands at index p, the
      elements around it keep their order, and the list gains one x. */
  function InsertAt(s: seq<nat>, p: nat, x: nat): (r: seq<nat>)
    requires p <= |s|
    ensures |r| == |s| + 1 && r[p] == x
    ensures r[..p] + r[p+1..] == s
    ensures multiset(r) == multiset(s) + multiset{x}
  {
    assert s == s[..p] + s[p..];
    s[..p] + [x] + s[p..]
  }

  lemma InsertAtInRange(s: seq<nat>, p: nat, x: nat, n: nat)
    requires p <= |s| && InRange(s, n) && x < n
    ensures InRange(InsertAt(s, p, x), n)
  {
    var r := InsertAt(s, p, x);
    forall k | 0 <= k < |r| ensures r[k] < n {
      if k < p { assert r[k] == s[k]; }
      else if k > p { assert r[k] == s[k - 1]; }
    }
  }

  /** Sum of the costs of the consecutive edges of route, as a path. */
  function PathCost(m: seq<seq<Cost>>, n: nat, route: seq<nat>): Cost
    requires IsMatrix(m, n) && InRange(route, n)
    decreases |route|
  {
    if |route| <= 1 then Fin(0)
    else Add(m[route[0]][route[1]], PathCost(m, n, route[1..]))
  }

  /** Cost of route as a cycle: its consecutive edges plus the edge from the
      last city back to the first.  A route of fewer than two cities uses no
      edge and costs 0. */
  function CycleCost(m: seq<seq<Cost>>, n: nat, route: seq<nat>): Cost
    requires IsMatrix(m, n) && InRange(route, n)
  {
    if |route| <= 1 then Fin(0)
    else Add(PathCost(m, n, route), m[route[|route| - 1]][route[0]])
  }

  /** `bssf.cost < np.inf`: the route is a feasible tour. */
  predicate Feasible(m: seq<seq<Cost>>, n: nat, route: seq<nat>)
    requires IsMatrix(m, n) && InRange(route, n)
  {
    CycleCost(m, n, route).Fin?
  }

  /** An edge of route, read as a cycle, is unreachable. */
  predicate BlockedEdge(m: seq<seq<Cost>>, n: nat, route: seq<nat>, i: nat)
    requires IsMatrix(m, n) && InRange(route, n) && i < |route|
  {
    m[route[i]][route[Succ(i, |route|)]].Inf?
  }

  lemma {:induction false} PathCostInf(m: seq<seq<Cost>>, n: nat, route: seq<nat>)
    requires IsMatrix(m, n) && InRange(route, n)
    ensures PathCost(m, n, route).Inf? <==>
            exists i :: 0 <= i < |route| - 1 && m[route[i]][route[i + 1]].Inf?
  {
    if |route| > 1 {
      var t := route[1..];
      PathCostInf(m, n, t);
      if PathCost(m, n, route).Inf? {
        if !m[route[0]][route[1]].Inf? {
          var i :| 0 <= i < |t| - 1 && m[t[i]][t[i + 1]].Inf?;
          assert route[i + 1] == t[i] && route[i + 2] == t[i + 1];
        }
      } else {
        forall i | 0 <= i < |route| - 1 ensures !m[route[i]][route[i + 1]].Inf? {
          if i > 0 {
            assert route[i] == t[i - 1] && route[i + 1] == t[i];
          }
        }
      }
    }
  }

  /** Evaluating a route of at least two cities: its cost is infinite exactly
      when one of its edges, the closing edge included, is unreachable. */
  lemma CycleCostInf(m: seq<seq<Cost>>, n: nat, route: seq<nat>)
    requires IsMatrix(m, n) && InRange(route, n) && |route| >= 2
    ensures CycleCost(m, n, route).Inf? <==>
            exists i :: 0 <= i < |route| && BlockedEdge(m, n, route, i)
  {
    PathCostInf(m, n, route);
    var last := |route| - 1;
    assert Succ(last, |route|) == 0;
    if CycleCost(m, n, route).Inf? {
      if !BlockedEdge(m, n, route, last) {
        var i :| 0 <= i < |route| - 1 && m[route[i]][route[i + 1]].Inf?;
        assert Succ(i, |route|) == i + 1;
        assert BlockedEdge(m, n, route, i);
      }
    } else {
      forall i | 0 <= i < |route| ensures !BlockedEdge(m, n, route, i) {
        if i < last {
          assert Succ(i, |route|) == i + 1;
        }
      }
    }
  }
}
