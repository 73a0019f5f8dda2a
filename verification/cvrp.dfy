/** The CVRP problem model (core/cvrp.py): the customer list with the depot
    at index 0, the distance matrix, route distance, route demand, solution
    cost, solution validity, unvisited customers, the random problem
    generator and the save/load round trip through a file record.

    The square root of the Euclidean distance is a parameter `root`; the
    only thing the model assumes of it, where it matters, is that it is
    non-negative on non-negative arguments. */
module Cvrp {
  import opened SeqUtil

  /** A customer; customer 0 of a problem is the depot. */
  datatype Customer = Customer(id: int, x: real, y: real, demand: int)

  /** A route lists customer indices; the depot at both ends is implicit. */
  type Route = seq<nat>
  type Solution = seq<Route>
  type Matrix = seq<seq<real>>

  /** A problem: capacity, customers (index 0 is the depot once it is added),
      the separately kept depot, and the distance matrix. A problem whose
      matrix has not been computed holds the empty matrix. */
  datatype Problem = Problem(capacity: int, customers: seq<Customer>, depot: Option<Customer>, distances: Matrix)

  /** `CVRP(capacity)`: nothing added, no matrix yet. */
  function NewProblem(capacity: int): Problem {
    Problem(capacity, [], None, [])
  }

  /** `add_depot`: the depot is customer id 0 with demand 0, appended to the list. */
  function AddDepot(p: Problem, x: real, y: real): (r: Problem)
    ensures r.customers == p.customers + [Customer(0, x, y, 0)]
    ensures r.depot == Some(Customer(0, x, y, 0))
    ensures r.capacity == p.capacity && r.distances == p.distances
  {
    var d := Customer(0, x, y, 0);
    p.(depot := Some(d), customers := p.customers + [d])
  }

  /** `add_customer`: appended as given; the matrix is not recomputed. */
  function AddCustomer(p: Problem, id: int, x: real, y: real, demand: int): (r: Problem)
    ensures r.customers == p.customers + [Customer(id, x, y, demand)]
    ensures r.capacity == p.capacity && r.depot == p.depot && r.distances == p.distances
  {
    p.(customers := p.customers + [Customer(id, x, y, demand)])
  }

  // ----- distance matrix -----

  ghost predicate IsSquare(m: Matrix, n: nat) {
    |m| == n && forall i :: 0 <= i < n ==> |m[i]| == n
  }

  ghost predicate Symmetric(m: Matrix) {
    forall i, j :: 0 <= i < |m| && 0 <= j < |m| && j < |m[i]| && i < |m[j]| ==> m[i][j] == m[j][i]
  }

  ghost predicate ZeroDiagonal(m: Matrix) {
    forall i :: 0 <= i < |m| && i < |m[i]| ==> m[i][i] == 0.0
  }

  ghost predicate NonNegative(m: Matrix) {
    forall i, j :: 0 <= i < |m| && 0 <= j < |m[i]| ==> m[i][j] >= 0.0
  }

  /** The distance matrix matches the customer list (it has been computed since the last addition). */
  ghost predicate Ready(p: Problem) {
    IsSquare(p.distances, |p.customers|)
  }

  function SquaredDistance(a: Customer, b: Customer): real {
    (a.x - b.x) * (a.x - b.x) + (a.y - b.y) * (a.y - b.y)
  }

  lemma SquaredDistanceSymmetric(a: Customer, b: Customer)
    ensures SquaredDistance(a, b) == SquaredDistance(b, a)
  {
    assert (b.x - a.x) == -(a.x - b.x);
    assert (b.y - a.y) == -(a.y - b.y);
  }

  /** `calculate_distances`: only off-diagonal entries are set, each to the
      root of the squared Euclidean distance; the diagonal stays 0. */
  function Distances(cs: seq<Customer>, root: real -> real): (m: Matrix)
    ensures IsSquare(m, |cs|)
    ensures ZeroDiagonal(m)
    ensures Symmetric(m)
    ensures forall i, j :: 0 <= i < |cs| && 0 <= j < |cs| && i != j ==> m[i][j] == root(SquaredDistance(cs[i], cs[j]))
    ensures (forall r: real :: r >= 0.0 ==> root(r) >= 0.0) ==> NonNegative(m)
  {
    var n := |cs|;
    var m := seq(n, i requires 0 <= i < n => seq(n, j requires 0 <= j < n => if i != j then root(SquaredDistance(cs[i], cs[j])) else 0.0));
    assert Symmetric(m) by {
      forall i, j | 0 <= i < n && 0 <= j < n
        ensures m[i][j] == m[j][i]
      {
        SquaredDistanceSymmetric(cs[i], cs[j]);
      }
    }
    assert (forall r: real :: r >= 0.0 ==> root(r) >= 0.0) ==> NonNegative(m) by {
      if forall r: real :: r >= 0.0 ==> root(r) >= 0.0 {
        forall i, j | 0 <= i < n && 0 <= j < n
          ensures m[i][j] >= 0.0
        {
          if i != j {
            var d := SquaredDistance(cs[i], cs[j]);
            assert (cs[i].x - cs[j].x) * (cs[i].x - cs[j].x) >= 0.0;
            assert (cs[i].y - cs[j].y) * (cs[i].y - cs[j].y) >= 0.0;
            assert d >= 0.0;
          }
        }
      }
    }
    m
  }

  function CalculateDistances(p: Problem, root: real -> real): (r: Problem)
    ensures Ready(r) && Symmetric(r.distances) && ZeroDiagonal(r.distances)
    ensures r.customers == p.customers && r.capacity == p.capacity && r.depot == p.depot
    ensures forall i, j :: 0 <= i < |p.customers| && 0 <= j < |p.customers| && i != j ==>
      r.distances[i][j] == root(SquaredDistance(p.customers[i], p.customers[j]))
  {
    p.(distances := Distances(p.customers, root))
  }

  // ----- routes and solutions -----

  ghost predicate InRange(route: Route, n: nat) {
    forall k :: 0 <= k < |route| ==> route[k] < n
  }

  ghost predicate AllInRange(solution: Solution, n: nat) {
    forall r :: 0 <= r < |solution| ==> InRange(solution[r], n)
  }

  /** The sum of d(route[k], route[k+1]) over consecutive customers of the route. */
  function PathLength(p: Problem, route: Route): (l: real)
    requires Ready(p) && InRange(route, |p.customers|)
    ensures NonNegative(p.distances) ==> l >= 0.0
  {
    if |route| <= 1 then 0.0
    else PathLength(p, route[..|route| - 1]) + p.distances[route[|route| - 2]][route[|route| - 1]]
  }

  /** The length of a route as the closed form: nothing for the empty route,
      otherwise depot to first, along the route, and last back to the depot. */
  function RouteLength(p: Problem, route: Route): (l: real)
    requires Ready(p) && InRange(route, |p.customers|)
    ensures NonNegative(p.distances) ==> l >= 0.0
  {
    if |route| == 0 then 0.0
    else
      assert route[0] < |p.customers|;
      p.distances[0][route[0]] + PathLength(p, route) + p.distances[route[|route| - 1]][0]
  }

  /** `calculate_route_distance`: the walk from the depot through the route
      and back, accumulated edge by edge as the source does. */
  method RouteDistance(p: Problem, route: Route) returns (distance: real)
    requires Ready(p) && InRange(route, |p.customers|)
    ensures distance == RouteLength(p, route)
    ensures |route| == 0 ==> distance == 0.0
  {
    if |route| == 0 {
      return 0.0;
    }
    distance := 0.0;
    var prev: nat := 0;
    for k := 0 to |route|
      invariant k == 0 ==> distance == 0.0 && prev == 0
      invariant k > 0 ==> prev == route[k - 1] && distance == p.distances[0][route[0]] + PathLength(p, route[..k])
    {
      if k > 0 {
        assert route[..k + 1][..k] == route[..k];
      }
      distance := distance + p.distances[prev][route[k]];
      prev := route[k];
    }
    assert route[..|route|] == route;
    distance := distance + p.distances[prev][0];
  }

  /** `calculate_route_demand`: the demands of the route's customers, summed. */
  function RouteDemand(p: Problem, route: Route): (d: int)
    requires InRange(route, |p.customers|)
    ensures |route| == 0 ==> d == 0
    ensures |route| == 1 ==> d == p.customers[route[0]].demand
    ensures (forall c :: 0 <= c < |p.customers| ==> p.customers[c].demand >= 0) ==> d >= 0
  {
    if |route| == 0 then 0
    else RouteDemand(p, route[..|route| - 1]) + p.customers[route[|route| - 1]].demand
  }

  /** Demand is additive over concatenation of routes. */
  lemma {:induction false} RouteDemandConcat(p: Problem, a: Route, b: Route)
    requires InRange(a, |p.customers|) && InRange(b, |p.customers|)
    ensures InRange(a + b, |p.customers|)
    ensures RouteDemand(p, a + b) == RouteDemand(p, a) + RouteDemand(p, b)
    decreases |b|
  {
    if |b| == 0 {
      assert a + b == a;
    } else {
      var b' := b[..|b| - 1];
      assert (a + b)[..|a + b| - 1] == a + b';
      RouteDemandConcat(p, a, b');
    }
  }

  /** Taking one customer out of a route lowers its demand by that customer's demand. */
  lemma RouteDemandRemoveAt(p: Problem, b: Route, i: nat)
    requires InRange(b, |p.customers|) && i < |b|
    ensures InRange(b[..i] + b[i + 1..], |p.customers|)
    ensures RouteDemand(p, b) == RouteDemand(p, b[..i] + b[i + 1..]) + p.customers[b[i]].demand
  {
    assert b == (b[..i] + [b[i]]) + b[i + 1..];
    RouteDemandConcat(p, b[..i], [b[i]]);
    RouteDemandConcat(p, b[..i] + [b[i]], b[i + 1..]);
    RouteDemandConcat(p, b[..i], b[i + 1..]);
    assert [b[i]][..0] == [];
  }

  /** Demand does not depend on the order in which a route visits its customers. */
  lemma {:induction false} RouteDemandPermutation(p: Problem, a: Route, b: Route)
    requires InRange(a, |p.customers|) && InRange(b, |p.customers|)
    requires multiset(a) == multiset(b)
    ensures RouteDemand(p, a) == RouteDemand(p, b)
    decreases |a|
  {
    if |a| == 0 {
      assert |b| == |multiset(b)| == 0;
    } else {
      var x := a[|a| - 1];
      var a' := a[..|a| - 1];
      assert a == a' + [x];
      assert x in b by {
        assert x in multiset(a);
      }
      var i :| 0 <= i < |b| && b[i] == x;
      MultisetRemoveAt(a', x, b, i);
      RouteDemandRemoveAt(p, b, i);
      RouteDemandPermutation(p, a', b[..i] + b[i + 1..]);
    }
  }

  /** `calculate_solution_cost`: the route lengths, summed. No routes cost
      nothing, one route costs its length, and with a non-negative matrix
      every solution costs at least 0. */
  function SolutionCost(p: Problem, solution: Solution): (cost: real)
    requires Ready(p) && AllInRange(solution, |p.customers|)
    ensures |solution| == 0 ==> cost == 0.0
    ensures |solution| == 1 ==> cost == RouteLength(p, solution[0])
    ensures NonNegative(p.distances) ==> cost >= 0.0
  {
    assert CostOfFirst(p, solution, 0) == 0.0;
    CostOfFirst(p, solution, |solution|)
  }

  /** The lengths of the first k routes, summed. */
  function CostOfFirst(p: Problem, solution: Solution, k: nat): (cost: real)
    requires Ready(p) && AllInRange(solution, |p.customers|) && k <= |solution|
    ensures NonNegative(p.distances) ==> cost >= 0.0
  {
    if k == 0 then 0.0 else CostOfFirst(p, solution, k - 1) + RouteLength(p, solution[k - 1])
  }

  lemma {:induction false} CostOfFirstPrefix(p: Problem, a: Solution, b: Solution, k: nat)
    requires Ready(p) && AllInRange(a + b, |p.customers|) && k <= |a|
    ensures AllInRange(a, |p.customers|)
    ensures CostOfFirst(p, a + b, k) == CostOfFirst(p, a, k)
  {
    assert forall r :: 0 <= r < |a| ==> (a + b)[r] == a[r];
    if k > 0 {
      CostOfFirstPrefix(p, a, b, k - 1);
    }
  }

  lemma {:induction false} CostOfFirstSuffix(p: Problem, a: Solution, b: Solution, k: nat)
    requires Ready(p) && AllInRange(a + b, |p.customers|) && k <= |b|
    ensures AllInRange(a, |p.customers|) && AllInRange(b, |p.customers|)
    ensures CostOfFirst(p, a + b, |a| + k) == SolutionCost(p, a) + CostOfFirst(p, b, k)
  {
    assert forall r :: 0 <= r < |b| ==> (a + b)[|a| + r] == b[r];
    if k == 0 {
      CostOfFirstPrefix(p, a, b, |a|);
    } else {
      CostOfFirstSuffix(p, a, b, k - 1);
    }
  }

  /** The cost of two lists of routes together is the sum of their costs. */
  lemma SolutionCostConcat(p: Problem, a: Solution, b: Solution)
    requires Ready(p) && AllInRange(a, |p.customers|) && AllInRange(b, |p.customers|)
    ensures AllInRange(a + b, |p.customers|)
    ensures SolutionCost(p, a + b) == SolutionCost(p, a) + SolutionCost(p, b)
  {
    assert AllInRange(a + b, |p.customers|) by {
      forall r | 0 <= r < |a + b|
        ensures InRange((a + b)[r], |p.customers|)
      {
        if r < |a| { assert (a + b)[r] == a[r]; } else { assert (a + b)[r] == b[r - |a|]; }
      }
    }
    CostOfFirstSuffix(p, a, b, |b|);
  }

  // ----- best-so-far bookkeeping shared by the solvers -----

  /** The number of times `range(x)` iterates: none for a negative count. */
  function Count(x: int): nat {
    if x > 0 then x else 0
  }

  /** `best_cost` of either solver: `float('inf')` until a first solution is costed. */
  datatype Cost = Infinite | Finite(value: real)

  /** The test `cost < self.best_cost`. */
  predicate Improves(c: real, best: Cost) {
    best.Infinite? || c < best.value
  }

  /** The order on best costs: every number is below infinity. */
  predicate AtMost(a: Cost, b: Cost) {
    b.Infinite? || (a.Finite? && a.value <= b.value)
  }

  lemma AtMostTransitive(a: Cost, b: Cost, c: Cost)
    requires AtMost(a, b) && AtMost(b, c)
    ensures AtMost(a, c)
  {
  }

  /** A best cost no higher than the last keeps a history non-increasing. */
  lemma NonIncreasingSnoc(history: seq<Cost>, c: Cost)
    requires NonIncreasing(history, AtMost)
    requires |history| > 0 ==> AtMost(c, history[|history| - 1])
    ensures NonIncreasing(history + [c], AtMost)
  {
    var h := history + [c];
    forall i, j | 0 <= i <= j < |h|
      ensures AtMost(h[j], h[i])
    {
      if j == |history| && i < j {
        AtMostTransitive(c, history[|history| - 1], history[i]);
      }
    }
  }

  // ----- validity -----

  /** Every route's demand is within the vehicle capacity. */
  ghost predicate WithinCapacity(p: Problem, solution: Solution)
    requires AllInRange(solution, |p.customers|)
  {
    forall r :: 0 <= r < |solution| ==> RouteDemand(p, solution[r]) <= p.capacity
  }

  /** Each customer 1..n-1 occurs exactly once and nothing else occurs. */
  ghost predicate ExactlyOnce(flat: seq<nat>, n: nat) {
    forall c: nat :: multiset(flat)[c] == if 1 <= c < n then 1 else 0
  }

  /** A solution the source accepts, with indices in range. */
  ghost predicate ValidSolution(p: Problem, s: Solution) {
    AllInRange(s, |p.customers|) && WithinCapacity(p, s) && ExactlyOnce(Flatten(s), |p.customers|)
  }

  ghost predicate NonEmptyRoutes(s: Solution) {
    forall r :: 0 <= r < |s| ==> |s[r]| > 0
  }

  /** Every customer fits in an empty vehicle. */
  ghost predicate AllDemandsFit(p: Problem) {
    forall c :: 1 <= c < |p.customers| ==> p.customers[c].demand <= p.capacity
  }

  lemma ExactlyOnceIsRange(flat: seq<nat>, n: nat)
    ensures ExactlyOnce(flat, n) <==> multiset(flat) == multiset(Range(1, n))
  {
    forall c: nat
      ensures multiset(Range(1, n))[c] == if 1 <= c < n then 1 else 0
    {
      RangeCount(1, n, c);
    }
    if ExactlyOnce(flat, n) {
      assert multiset(flat) == multiset(Range(1, n));
    }
  }

  /** `seen` lists each element of `visited` once and nothing else. */
  ghost predicate Tally(seen: seq<nat>, visited: set<nat>) {
    forall v: nat :: multiset(seen)[v] == if v in visited then 1 else 0
  }

  lemma TallyAdd(seen: seq<nat>, visited: set<nat>, c: nat)
    requires Tally(seen, visited) && c !in visited
    ensures Tally(seen + [c], visited + {c})
  {
    assert multiset(seen + [c]) == multiset(seen) + multiset{c};
  }

  /** Once every customer has been tallied, coverage is exactly the set comparison the source makes. */
  lemma TallyCoverage(flat: seq<nat>, visited: set<nat>, n: nat)
    requires Tally(flat, visited)
    ensures ExactlyOnce(flat, n) <==> visited == set c | c in Range(1, n)
  {
    var all := set c | c in Range(1, n);
    forall c: nat
      ensures c in all <==> 1 <= c < n
    {
      RangeMembership(1, n, c);
    }
    if visited != all {
      var c :| c in visited - all || c in all - visited;
      assert multiset(flat)[c] != if 1 <= c < n then 1 else 0;
    }
  }

  /** The capacity half of `is_solution_valid`: routes are checked in order
      and the first one over capacity rejects the solution. */
  method FitsCapacity(p: Problem, solution: Solution) returns (fits: bool)
    requires AllInRange(solution, |p.customers|)
    ensures fits <==> WithinCapacity(p, solution)
  {
    for r := 0 to |solution|
      invariant forall k :: 0 <= k < r ==> RouteDemand(p, solution[k]) <= p.capacity
    {
      if RouteDemand(p, solution[r]) > p.capacity {
        return false;
      }
    }
    return true;
  }

  /** The first k routes hold no more copies of anything than the whole solution. */
  lemma {:induction false} FlattenFirstWithin(solution: Solution, k: nat)
    requires k <= |solution|
    ensures multiset(FlattenFirst(solution, k)) <= multiset(Flatten(solution))
    decreases |solution| - k
  {
    if k < |solution| {
      FlattenFirstWithin(solution, k + 1);
      assert FlattenFirst(solution, k + 1) == FlattenFirst(solution, k) + solution[k];
    }
  }

  /** The inner loop of the duplicate check, over one route. */
  method VisitRoute(route: Route, visited: set<nat>, ghost seen: seq<nat>) returns (repeated: bool, visited': set<nat>)
    requires Tally(seen, visited)
    ensures repeated ==> exists c :: multiset(seen + route)[c] >= 2
    ensures !repeated ==> Tally(seen + route, visited')
  {
    visited' := visited;
    for k := 0 to |route|
      invariant Tally(seen + route[..k], visited')
    {
      var c := route[k];
      assert route[..k + 1] == route[..k] + [c];
      if c in visited' {
        assert multiset(seen + route[..k + 1])[c] == 2;
        assert seen + route == (seen + route[..k + 1]) + route[k + 1..];
        assert multiset(seen + route)[c] >= 2;
        return true, visited';
      }
      TallyAdd(seen + route[..k], visited', c);
      assert seen + route[..k] + [c] == seen + route[..k + 1];
      visited' := visited' + {c};
    }
    assert route[..|route|] == route;
    return false, visited';
  }

  /** The duplicate half of `is_solution_valid`: customers are added to a
      growing `visited` set, and one already there rejects the solution. */
  method CollectVisited(solution: Solution) returns (repeated: bool, visited: set<nat>)
    ensures repeated ==> forall n :: !ExactlyOnce(Flatten(solution), n)
    ensures !repeated ==> Tally(Flatten(solution), visited)
  {
    visited := {};
    for r := 0 to |solution|
      invariant Tally(FlattenFirst(solution, r), visited)
    {
      var stop;
      stop, visited := VisitRoute(solution[r], visited, FlattenFirst(solution, r));
      if stop {
        var c :| multiset(FlattenFirst(solution, r + 1))[c] >= 2;
        FlattenFirstWithin(solution, r + 1);
        assert multiset(Flatten(solution))[c] >= 2;
        return true, visited;
      }
    }
    return false, visited;
  }

  /** `is_solution_valid`: the capacity check first, then the duplicate and
      coverage checks over a growing `visited` set, as the source does. */
  method IsSolutionValid(p: Problem, solution: Solution) returns (valid: bool)
    requires AllInRange(solution, |p.customers|)
    ensures valid <==> WithinCapacity(p, solution) && ExactlyOnce(Flatten(solution), |p.customers|)
  {
    var fits := FitsCapacity(p, solution);
    if !fits {
      return false;
    }
    var repeated, visited := CollectVisited(solution);
    if repeated {
      return false;
    }
    TallyCoverage(Flatten(solution), visited, |p.customers|);
    var all := set c | c in Range(1, |p.customers|);
    return visited == all;
  }

  /** `get_unvisited_customers`: the customers 1..n-1 not in `visited`, each once
      (the source's order is a set's iteration order; here it is ascending). */
  function GetUnvisitedCustomers(p: Problem, visited: seq<nat>): (r: seq<nat>)
    ensures forall c: nat :: c in r <==> 1 <= c < |p.customers| && c !in visited
    ensures Distinct(r)
  {
    var all := Range(1, |p.customers|);
    var r := Filter(all, (c: nat) => c !in visited);
    forall c: nat
      ensures c in r <==> 1 <= c < |p.customers| && c !in visited
    {
      RangeMembership(1, |p.customers|, c);
    }
    assert Distinct(r) by {
      forall c | c in r
        ensures multiset(r)[c] == 1
      {
        FilterCount(all, (c: nat) => c !in visited, c);
        RangeCount(1, |p.customers|, c);
      }
    }
    r
  }

  // ----- the random generator -----

  /** `load_problem`: the depot at the origin, then customers 1..num_customers
      whose coordinates and demands are the draws of `random.uniform(-100, 100)`
      and `random.randint(10, 40)`, passed in; then the matrix is computed. */
  function LoadProblem(p: Problem, numCustomers: int, capacity: int, coords: seq<(real, real)>, demands: seq<int>, root: real -> real): (r: Problem)
    requires |coords| == |demands| == if numCustomers > 0 then numCustomers else 0
    requires forall k :: 0 <= k < |coords| ==> -100.0 <= coords[k].0 <= 100.0 && -100.0 <= coords[k].1 <= 100.0
    requires forall k :: 0 <= k < |demands| ==> 10 <= demands[k] <= 40
    ensures |r.customers| == |demands| + 1 && Ready(r) && r.capacity == capacity
    ensures r.customers[0] == Customer(0, 0.0, 0.0, 0) && r.depot == Some(r.customers[0])
    ensures forall i :: 1 <= i < |r.customers| ==> r.customers[i].id == i && 10 <= r.customers[i].demand <= 40
    ensures forall i :: 1 <= i < |r.customers| ==> -100.0 <= r.customers[i].x <= 100.0 && -100.0 <= r.customers[i].y <= 100.0
    ensures forall i :: 1 <= i < |r.customers| ==> r.customers[i] == Customer(i, coords[i - 1].0, coords[i - 1].1, demands[i - 1])
    ensures forall i, j :: 0 <= i < |r.customers| && 0 <= j < |r.customers| && i != j ==>
      r.distances[i][j] == root(SquaredDistance(r.customers[i], r.customers[j]))
  {
    var cleared := p.(capacity := capacity, customers := []);
    var withDepot := AddDepot(cleared, 0.0, 0.0);
    var added := withDepot.(customers := withDepot.customers + seq(|demands|, k requires 0 <= k < |demands| => Customer(k + 1, coords[k].0, coords[k].1, demands[k])));
    CalculateDistances(added, root)
  }

  // ----- file records -----

  datatype CustomerRecord = CustomerRecord(id: int, x: real, y: real, demand: int)

  /** The file layout: capacity, depot coordinates, and every customer but the depot. */
  datatype ProblemRecord = ProblemRecord(capacity: int, depotX: real, depotY: real, customers: seq<CustomerRecord>)

  /** What the parsed file holds; a missing or unreadable field is None. */
  datatype RawRecord = RawRecord(capacity: Option<int>, depot: Option<(real, real)>, customers: Option<seq<Option<CustomerRecord>>>)

  function ToRecord(c: Customer): CustomerRecord {
    CustomerRecord(c.id, c.x, c.y, c.demand)
  }

  function FromRecord(c: CustomerRecord): Customer {
    Customer(c.id, c.x, c.y, c.demand)
  }

  /** `save_to_file`: None (the source returns False) when no depot was ever added. */
  function SaveToFile(p: Problem): (r: Option<ProblemRecord>)
    ensures r.Some? <==> p.depot.Some?
    ensures r.Some? ==> r.value.capacity == p.capacity && r.value.depotX == p.depot.value.x && r.value.depotY == p.depot.value.y
    ensures r.Some? ==> |r.value.customers| == if |p.customers| == 0 then 0 else |p.customers| - 1
    ensures r.Some? ==> forall k :: 0 <= k < |r.value.customers| ==> FromRecord(r.value.customers[k]) == p.customers[k + 1]
  {
    match p.depot
    case None => None
    case Some(d) =>
      var rest := if |p.customers| == 0 then [] else p.customers[1..];
      Some(ProblemRecord(p.capacity, d.x, d.y, seq(|rest|, k requires 0 <= k < |rest| => ToRecord(rest[k]))))
  }

  /** The record as it reads back from the file that holds it. */
  function Reread(rec: ProblemRecord): RawRecord {
    RawRecord(Some(rec.capacity), Some((rec.depotX, rec.depotY)), Some(seq(|rec.customers|, k requires 0 <= k < |rec.customers| => Some(rec.customers[k]))))
  }

  /** The records read before the first one that cannot be read. */
  function LeadingRecords(raws: seq<Option<CustomerRecord>>): (rs: seq<CustomerRecord>)
    ensures |rs| <= |raws| && forall k :: 0 <= k < |rs| ==> raws[k] == Some(rs[k])
    ensures |rs| < |raws| ==> raws[|rs|].None?
    decreases |raws|
  {
    if |raws| == 0 || raws[0].None? then []
    else [raws[0].value] + LeadingRecords(raws[1..])
  }

  /** The customers a list of records describes, in order. */
  function FromRecords(rs: seq<CustomerRecord>): (cs: seq<Customer>)
    ensures |cs| == |rs| && forall k :: 0 <= k < |rs| ==> cs[k] == FromRecord(rs[k])
  {
    seq(|rs|, k requires 0 <= k < |rs| => FromRecord(rs[k]))
  }

  lemma FromRecordsCons(c: CustomerRecord, rs: seq<CustomerRecord>)
    ensures FromRecords([c] + rs) == [FromRecord(c)] + FromRecords(rs)
  {
    var x, y := FromRecords([c] + rs), [FromRecord(c)] + FromRecords(rs);
    forall k | 0 <= k < |x|
      ensures x[k] == y[k]
    {
      if k > 0 {
        assert ([c] + rs)[k] == rs[k - 1];
      }
    }
  }

  /** The customer loop of `load_from_file`: customers are added one by one
      until one cannot be read, at which point loading stops with the
      customers read so far added. */
  function LoadCustomers(p: Problem, raws: seq<Option<CustomerRecord>>): (r: (bool, Problem))
    ensures r.0 <==> forall k :: 0 <= k < |raws| ==> raws[k].Some?
    ensures r.1.customers == p.customers + FromRecords(LeadingRecords(raws))
    ensures r.0 ==> r.1.customers == p.customers + seq(|raws|, k requires 0 <= k < |raws| && raws[k].Some? => FromRecord(raws[k].value))
    ensures r.1.capacity == p.capacity && r.1.depot == p.depot && r.1.distances == p.distances
    ensures |p.customers| <= |r.1.customers| && r.1.customers[..|p.customers|] == p.customers
    decreases |raws|
  {
    if |raws| == 0 then (true, p)
    else match raws[0]
      case None => (false, p)
      case Some(c) =>
        var q := AddCustomer(p, c.id, c.x, c.y, c.demand);
        var r := LoadCustomers(q, raws[1..]);
        assert r.1.customers[..|p.customers|] == r.1.customers[..|q.customers|][..|p.customers|];
        assert LeadingRecords(raws) == [c] + LeadingRecords(raws[1..]);
        FromRecordsCons(c, LeadingRecords(raws[1..]));
        ConcatAssoc(p.customers, [FromRecord(c)], FromRecords(LeadingRecords(raws[1..])));
        r
  }

  /** `load_from_file`. An unreadable file (None) changes nothing. Otherwise the
      capacity is set and the customer list cleared before the depot and the
      customers are read, so a record missing a later field leaves a partly
      loaded problem behind; the matrix is recomputed only on success. */
  function LoadFromFile(p: Problem, file: Option<RawRecord>, root: real -> real): (r: (bool, Problem))
    ensures file.None? ==> r == (false, p)
    ensures file.Some? && file.value.capacity.None? ==> r == (false, p)
    ensures file.Some? && file.value.capacity.Some? ==> r.1.capacity == file.value.capacity.value
    ensures file.Some? && file.value.capacity.Some? && file.value.depot.None? ==> r.1.customers == [] && r.1.depot == p.depot
    ensures file.Some? && file.value.capacity.Some? && file.value.depot.Some? ==>
      var xy := file.value.depot.value;
      var loaded := if file.value.customers.None? then [] else FromRecords(LeadingRecords(file.value.customers.value));
      r.1.customers == [Customer(0, xy.0, xy.1, 0)] + loaded && r.1.depot == Some(Customer(0, xy.0, xy.1, 0))
    ensures r.0 ==> Ready(r.1) && |r.1.customers| >= 1 && r.1.depot == Some(r.1.customers[0])
    ensures r.0 ==> r.1.customers[0].id == 0 && r.1.customers[0].demand == 0
    ensures !r.0 ==> r.1.distances == p.distances
    ensures r.0 <==> file.Some? && file.value.capacity.Some? && file.value.depot.Some? && file.value.customers.Some?
                     && forall k :: 0 <= k < |file.value.customers.value| ==> file.value.customers.value[k].Some?
  {
    match file
    case None => (false, p)
    case Some(raw) =>
      match raw.capacity
      case None => (false, p)
      case Some(capacity) =>
        var cleared := p.(capacity := capacity, customers := []);
        match raw.depot
        case None => (false, cleared)
        case Some(xy) =>
          var withDepot := AddDepot(cleared, xy.0, xy.1);
          match raw.customers
          case None => (false, withDepot)
          case Some(cs) =>
            var loaded := LoadCustomers(withDepot, cs);
            if loaded.0 then (true, CalculateDistances(loaded.1, root)) else loaded
  }

  /** The record written by save loads back: the same capacity, the depot
      re-created from its coordinates, then the saved customers in order. */
  lemma SaveLoadRoundTrip(p: Problem, q: Problem, root: real -> real)
    requires p.depot.Some?
    ensures SaveToFile(p).Some?
    ensures var r := LoadFromFile(q, Some(Reread(SaveToFile(p).value)), root);
            && r.0
            && r.1.capacity == p.capacity
            && r.1.customers == [Customer(0, p.depot.value.x, p.depot.value.y, 0)] + (if |p.customers| == 0 then [] else p.customers[1..])
            && r.1.depot == Some(r.1.customers[0])
            && r.1.distances == Distances(r.1.customers, root)
  {
    var rec := SaveToFile(p).value;
    var raws := Reread(rec).customers.value;
    var cleared := q.(capacity := p.capacity, customers := []);
    var withDepot := AddDepot(cleared, rec.depotX, rec.depotY);
    var loaded := LoadCustomers(withDepot, raws);
    var rest := if |p.customers| == 0 then [] else p.customers[1..];
    assert forall k :: 0 <= k < |raws| ==> raws[k] == Some(rec.customers[k]);
    assert seq(|raws|, k requires 0 <= k < |raws| && raws[k].Some? => FromRecord(raws[k].value)) == rest;
    assert loaded.0 && loaded.1.customers == withDepot.customers + rest;
    assert LoadFromFile(q, Some(Reread(rec)), root) == (true, CalculateDistances(loaded.1, root));
  }

  /** A problem built through `add_depot` first: the depot is customer 0. */
  ghost predicate WellFormed(p: Problem) {
    |p.customers| >= 1 && p.depot == Some(p.customers[0]) && p.customers[0].id == 0 && p.customers[0].demand == 0
  }

  /** For a well-formed problem, saving and loading gives back the same
      capacity, customer list and depot, with a freshly computed matrix. */
  lemma SaveLoadIdentity(p: Problem, q: Problem, root: real -> real)
    requires WellFormed(p)
    ensures SaveToFile(p).Some?
    ensures LoadFromFile(q, Some(Reread(SaveToFile(p).value)), root)
            == (true, CalculateDistances(p, root))
  {
    SaveLoadRoundTrip(p, q, root);
    assert p.customers == [p.customers[0]] + p.customers[1..];
  }
}
