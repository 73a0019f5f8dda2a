/** The ant colony solver of `core/aco.py` (`ACO_CVRP`): the colony state,
    the probabilistic choice of the next customer, the construction of one
    ant's solution, the pheromone update and the iteration loop of `run`.

    Randomness is an explicit oracle: every call of `np.random.choice`
    consumes one draw `u` in [0, 1), and the stop button is a sequence of
    flags, one per iteration, read where the source reads `stop_flag`.
    Python's `x ** y` on floats is the parameter `power`. */
module Aco {
  import opened SeqUtil
  import opened Cvrp

  /** The state the constructor of `ACO_CVRP` builds; alpha and beta are
      the exponents of the pheromone and heuristic factors. */
  datatype Colony = Colony(
    numAnts: int, alpha: real, beta: real, rho: real, q: real, maxIterations: int,
    pheromone: Matrix, heuristic: Matrix)

  /** Neither matrix has a negative entry. */
  ghost predicate NonNegativeLevels(col: Colony) {
    NonNegative(col.pheromone) && NonNegative(col.heuristic)
  }

  /** Square matrices over the problem's nodes, the shape the constructor
      builds, with no negative entry. */
  ghost predicate Shaped(col: Colony, n: nat) {
    IsSquare(col.pheromone, n) && IsSquare(col.heuristic, n) && NonNegativeLevels(col)
  }

  /** `x ** y` of a non-negative float is never negative. Only non-negative
      bases are raised: the colony's matrices have no negative entry. */
  ghost predicate NonNegativePower(power: (real, real) -> real) {
    forall b, e :: b >= 0.0 ==> power(b, e) >= 0.0
  }

  /** The heuristic matrix: the inverse of the distance wherever the
      distance is positive off the diagonal, zero elsewhere. */
  function Heuristic(d: Matrix, n: nat): (h: Matrix)
    requires IsSquare(d, n)
    ensures IsSquare(h, n) && NonNegative(h)
    ensures forall i, j :: 0 <= i < n && 0 <= j < n && i != j && d[i][j] > 0.0 ==> h[i][j] * d[i][j] == 1.0
    ensures forall i, j :: 0 <= i < n && 0 <= j < n && (i == j || d[i][j] <= 0.0) ==> h[i][j] == 0.0
    ensures Symmetric(d) ==> Symmetric(h)
  {
    seq(n, i requires 0 <= i < n =>
      seq(n, j requires 0 <= j < n => if i != j && d[i][j] > 0.0 then 1.0 / d[i][j] else 0.0))
  }

  /** An n-by-n matrix of ones (`np.ones((n, n))`). */
  function Ones(n: nat): (m: Matrix)
    ensures IsSquare(m, n) && Symmetric(m)
    ensures forall i, j :: 0 <= i < n && 0 <= j < n ==> m[i][j] == 1.0
  {
    seq(n, i requires 0 <= i < n => seq(n, j requires 0 <= j < n => 1.0))
  }

  /** `ACO_CVRP.__init__`: uniform pheromone, heuristic from the distances. */
  function NewColony(p: Problem, numAnts: int, alpha: real, beta: real, rho: real, q: real, maxIterations: int): (col: Colony)
    requires Ready(p)
    ensures Shaped(col, |p.customers|) && Symmetric(col.pheromone) && NonNegative(col.heuristic)
    ensures forall i, j :: 0 <= i < |p.customers| && 0 <= j < |p.customers| ==> col.pheromone[i][j] == 1.0
    ensures Symmetric(p.distances) ==> Symmetric(col.heuristic)
    ensures col.numAnts == numAnts && col.alpha == alpha && col.beta == beta
    ensures col.rho == rho && col.q == q && col.maxIterations == maxIterations
  {
    Colony(numAnts, alpha, beta, rho, q, maxIterations,
      Ones(|p.customers|), Heuristic(p.distances, |p.customers|))
  }

  // ----- choosing the next customer -----

  /** The unnormalised attraction of each candidate seen from `current`. */
  function Weights(col: Colony, power: (real, real) -> real, current: nat, candidates: seq<nat>): (w: seq<real>)
    requires current < |col.pheromone| && current < |col.heuristic|
    requires forall k :: 0 <= k < |candidates| ==>
      candidates[k] < |col.pheromone[current]| && candidates[k] < |col.heuristic[current]|
    requires NonNegativeLevels(col) && NonNegativePower(power)
    ensures |w| == |candidates|
    ensures forall k :: 0 <= k < |w| ==> w[k] >= 0.0
  {
    var w := seq(|candidates|, k requires 0 <= k < |candidates| =>
      power(col.pheromone[current][candidates[k]], col.alpha) *
      power(col.heuristic[current][candidates[k]], col.beta));
    assert forall k | 0 <= k < |w| :: w[k] >= 0.0 by {
      forall k | 0 <= k < |w|
        ensures w[k] >= 0.0
      {
        var a := power(col.pheromone[current][candidates[k]], col.alpha);
        var b := power(col.heuristic[current][candidates[k]], col.beta);
        PowerNonNegative(power, col.pheromone[current][candidates[k]], col.alpha);
        PowerNonNegative(power, col.heuristic[current][candidates[k]], col.beta);
        ProductNonNegative(a, b);
      }
    }
    w
  }

  lemma PowerNonNegative(power: (real, real) -> real, b: real, e: real)
    requires NonNegativePower(power) && b >= 0.0
    ensures power(b, e) >= 0.0
  {
  }

  lemma ProductNonNegative(a: real, b: real)
    requires a >= 0.0 && b >= 0.0
    ensures a * b >= 0.0
  {
  }

  /** Scales the weights into a probability vector; when every weight is
      zero each candidate gets the same probability. */
  function Normalize(w: seq<real>): (pr: seq<real>)
    requires |w| > 0
    requires forall k :: 0 <= k < |w| ==> w[k] >= 0.0
    ensures |pr| == |w| && SumReal(pr) == 1.0
    ensures forall k :: 0 <= k < |pr| ==> pr[k] >= 0.0
    ensures SumReal(w) > 0.0 ==> forall k :: 0 <= k < |pr| ==> pr[k] * SumReal(w) == w[k]
    ensures SumReal(w) <= 0.0 ==> forall k :: 0 <= k < |pr| ==> pr[k] * (|w| as real) == 1.0
  {
    var total := SumReal(w);
    if total > 0.0 then
      SumRealDivide(w, total);
      seq(|w|, k requires 0 <= k < |w| => w[k] / total)
    else
      SumRealConstant(|w|, 1.0 / (|w| as real));
      seq(|w|, k requires 0 <= k < |w| => 1.0 / (|w| as real))
  }

  /** The running sum pr[0] + ... + pr[i-1]. */
  function Cum(pr: seq<real>, i: nat): real
    requires i <= |pr|
  {
    if i == 0 then 0.0 else Cum(pr, i - 1) + pr[i - 1]
  }

  lemma {:induction false} CumIsSum(pr: seq<real>, i: nat)
    requires i <= |pr|
    ensures Cum(pr, i) == SumReal(pr[..i])
  {
    if i > 0 {
      CumIsSum(pr, i - 1);
      assert pr[..i][..i - 1] == pr[..i - 1];
    }
  }

  /** numpy's `choice(len(p), p=p)` with draw u: it builds the running sums
      of p and returns the first position whose running sum exceeds u
      (`searchsorted(u, side='right')`), or `len(p)` when there is none. */
  function SearchSorted(pr: seq<real>, u: real, k: nat): nat
    requires k <= |pr|
    decreases |pr| - k
  {
    if k == |pr| then |pr|
    else if Cum(pr, k + 1) > u then k
    else SearchSorted(pr, u, k + 1)
  }

  lemma {:induction false} SearchSortedInterval(pr: seq<real>, u: real, k: nat)
    requires k < |pr| && Cum(pr, k) <= u < Cum(pr, |pr|)
    ensures var r := SearchSorted(pr, u, k);
      k <= r < |pr| && Cum(pr, r) <= u < Cum(pr, r + 1)
    decreases |pr| - k
  {
    if Cum(pr, k + 1) <= u {
      SearchSortedInterval(pr, u, k + 1);
    }
  }

  /** The position `np.random.choice` picks for draw u: the one whose slice
      [running sum before it, running sum through it) of [0, 1) holds u, so
      it is picked with its probability. Only a candidate with positive
      weight can be picked, unless all weights are zero. */
  function ChoiceIndex(w: seq<real>, u: real): (i: nat)
    requires |w| > 0 && 0.0 <= u < 1.0
    requires forall k :: 0 <= k < |w| ==> w[k] >= 0.0
    ensures i < |w|
    ensures Cum(Normalize(w), i) <= u < Cum(Normalize(w), i + 1)
    ensures SumReal(w) > 0.0 ==> w[i] > 0.0
  {
    var pr := Normalize(w);
    CumIsSum(pr, |pr|);
    assert pr[..|pr|] == pr;
    SearchSortedInterval(pr, u, 0);
    SearchSorted(pr, u, 0)
  }

  /** `select_next_node`: None for no candidates, otherwise the candidate
      numpy draws for u. */
  function SelectNextNode(col: Colony, power: (real, real) -> real, current: nat, candidates: seq<nat>, u: real): (r: Option<nat>)
    requires current < |col.pheromone| && current < |col.heuristic|
    requires forall k :: 0 <= k < |candidates| ==>
      candidates[k] < |col.pheromone[current]| && candidates[k] < |col.heuristic[current]|
    requires NonNegativeLevels(col) && NonNegativePower(power) && 0.0 <= u < 1.0
    ensures r.None? <==> |candidates| == 0
    ensures r.Some? ==>
      exists i :: 0 <= i < |candidates| && r.value == candidates[i] &&
        Cum(Normalize(Weights(col, power, current, candidates)), i) <= u &&
        u < Cum(Normalize(Weights(col, power, current, candidates)), i + 1)
  {
    if |candidates| == 0 then None
    else
      var i := ChoiceIndex(Weights(col, power, current, candidates), u);
      Some(candidates[i])
  }

  // ----- building one ant's solution -----

  /** The remaining customers whose demand still fits on a vehicle
      carrying `load`, in the order of the remaining list. */
  function Candidates(p: Problem, remaining: seq<nat>, load: int): (c: seq<nat>)
    requires InRange(remaining, |p.customers|)
    ensures InRange(c, |p.customers|)
    ensures forall k :: 0 <= k < |c| ==> c[k] in remaining
  {
    if |remaining| == 0 then []
    else
      var last := remaining[|remaining| - 1];
      Candidates(p, remaining[..|remaining| - 1], load) +
        (if load + p.customers[last].demand <= p.capacity then [last] else [])
  }

  /** A customer is a candidate exactly when it is remaining and fits. */
  lemma {:induction false} CandidatesExact(p: Problem, remaining: seq<nat>, load: int, x: nat)
    requires InRange(remaining, |p.customers|)
    ensures x in Candidates(p, remaining, load) <==>
      x in remaining && load + p.customers[x].demand <= p.capacity
    decreases |remaining|
  {
    if |remaining| > 0 {
      var init := remaining[..|remaining| - 1];
      CandidatesExact(p, init, load, x);
      assert remaining == init + [remaining[|remaining| - 1]];
    }
  }

  /** Draws of `np.random.choice`'s uniform variate, all in [0, 1). */
  ghost predicate Draws(draws: seq<real>) {
    forall k :: 0 <= k < |draws| ==> 0.0 <= draws[k] < 1.0
  }

  /** The candidate `select_next_node` returns for draw u. */
  function Chosen(col: Colony, power: (real, real) -> real, current: nat, candidates: seq<nat>, u: real): (c: nat)
    requires current < |col.pheromone| && current < |col.heuristic|
    requires forall k :: 0 <= k < |candidates| ==>
      candidates[k] < |col.pheromone[current]| && candidates[k] < |col.heuristic[current]|
    requires NonNegativeLevels(col) && NonNegativePower(power) && 0.0 <= u < 1.0 && |candidates| > 0
    ensures c in candidates
  {
    candidates[ChoiceIndex(Weights(col, power, current, candidates), u)]
  }

  lemma ChosenIsSelected(col: Colony, power: (real, real) -> real, current: nat, candidates: seq<nat>, u: real)
    requires current < |col.pheromone| && current < |col.heuristic|
    requires forall k :: 0 <= k < |candidates| ==>
      candidates[k] < |col.pheromone[current]| && candidates[k] < |col.heuristic[current]|
    requires NonNegativeLevels(col) && NonNegativePower(power) && 0.0 <= u < 1.0 && |candidates| > 0
    ensures SelectNextNode(col, power, current, candidates, u) == Some(Chosen(col, power, current, candidates, u))
  {
  }

  /** A vehicle on its way: the route so far, the demand it carries (the
      source's `current_capacity`), the customers still unserved, and the
      position of the next unused draw. */
  datatype Leg = Leg(route: Route, load: int, remaining: seq<nat>, cursor: nat)

  ghost predicate LegInRange(leg: Leg, n: nat) {
    InRange(leg.route, n) && InRange(leg.remaining, n)
  }

  /** Appending `next` to the route, adding its demand to the load and
      removing it from the remaining list (one draw has been used). */
  function TakeCustomer(p: Problem, leg: Leg, next: nat): (r: Leg)
    requires LegInRange(leg, |p.customers|) && next in leg.remaining
    ensures LegInRange(r, |p.customers|)
    ensures |r.remaining| == |leg.remaining| - 1 && r.cursor == leg.cursor + 1
  {
    RemoveFirstInRange(leg.remaining, next, |p.customers|);
    Leg(leg.route + [next], leg.load + p.customers[next].demand, RemoveFirst(leg.remaining, next), leg.cursor + 1)
  }

  lemma RemoveFirstInRange(remaining: seq<nat>, x: nat, n: nat)
    requires InRange(remaining, n) && x in remaining
    ensures InRange(RemoveFirst(remaining, x), n) && x < n
  {
    var rest := RemoveFirst(remaining, x);
    forall k | 0 <= k < |rest|
      ensures rest[k] < n
    {
      assert rest[k] in multiset(rest);
      assert rest[k] in multiset(remaining);
    }
  }

  /** The inner `while True` loop of `construct_solution`: one vehicle
      leaves the depot and keeps taking a chosen customer that still fits,
      until none does. Each choice consumes the draw at the cursor. What it
      computes is stated by the `ExtendRoute...` lemmas below. */
  function ExtendRoute(p: Problem, col: Colony, power: (real, real) -> real,
                       leg: Leg, current: nat, draws: seq<real>): (r: Leg)
    requires Ready(p) && Shaped(col, |p.customers|) && NonNegativePower(power)
    requires LegInRange(leg, |p.customers|) && current < |p.customers|
    requires Draws(draws) && leg.cursor + |leg.remaining| <= |draws|
    ensures LegInRange(r, |p.customers|)
    decreases |leg.remaining|
  {
    var candidates := Candidates(p, leg.remaining, leg.load);
    if |candidates| == 0 then leg
    else
      var next := Chosen(col, power, current, candidates, draws[leg.cursor]);
      ExtendRoute(p, col, power, TakeCustomer(p, leg, next), next, draws)
  }

  /** Taking a customer is one step of `ExtendRoute`. */
  lemma ExtendRouteStep(p: Problem, col: Colony, power: (real, real) -> real,
                        leg: Leg, current: nat, draws: seq<real>)
    requires Ready(p) && Shaped(col, |p.customers|) && NonNegativePower(power)
    requires LegInRange(leg, |p.customers|) && current < |p.customers|
    requires Draws(draws) && leg.cursor + |leg.remaining| <= |draws|
    requires Candidates(p, leg.remaining, leg.load) != []
    ensures var next := Chosen(col, power, current, Candidates(p, leg.remaining, leg.load), draws[leg.cursor]);
      && next in leg.remaining
      && leg.load + p.customers[next].demand <= p.capacity
      && ExtendRoute(p, col, power, leg, current, draws) ==
         ExtendRoute(p, col, power, TakeCustomer(p, leg, next), next, draws)
  {
    var next := Chosen(col, power, current, Candidates(p, leg.remaining, leg.load), draws[leg.cursor]);
    CandidatesExact(p, leg.remaining, leg.load, next);
  }

  /** The route extends the one the vehicle started with. */
  lemma {:induction false} ExtendRoutePrefix(p: Problem, col: Colony, power: (real, real) -> real,
                                             leg: Leg, current: nat, draws: seq<real>)
    requires Ready(p) && Shaped(col, |p.customers|) && NonNegativePower(power)
    requires LegInRange(leg, |p.customers|) && current < |p.customers|
    requires Draws(draws) && leg.cursor + |leg.remaining| <= |draws|
    ensures var r := ExtendRoute(p, col, power, leg, current, draws);
      |r.route| >= |leg.route| && r.route[..|leg.route|] == leg.route
    decreases |leg.remaining|
  {
    if Candidates(p, leg.remaining, leg.load) != [] {
      ExtendRouteStep(p, col, power, leg, current, draws);
      var next := Chosen(col, power, current, Candidates(p, leg.remaining, leg.load), draws[leg.cursor]);
      var leg' := TakeCustomer(p, leg, next);
      ExtendRoutePrefix(p, col, power, leg', next, draws);
      var r := ExtendRoute(p, col, power, leg', next, draws);
      assert r.route[..|leg'.route|][..|leg.route|] == r.route[..|leg.route|];
    }
  }

  /** Customers move from the remaining list to the route: nothing is lost
      and nothing invented; the route grows whenever some customer fits. */
  lemma {:induction false} ExtendRouteTakes(p: Problem, col: Colony, power: (real, real) -> real,
                                            leg: Leg, current: nat, draws: seq<real>)
    requires Ready(p) && Shaped(col, |p.customers|) && NonNegativePower(power)
    requires LegInRange(leg, |p.customers|) && current < |p.customers|
    requires Draws(draws) && leg.cursor + |leg.remaining| <= |draws|
    ensures var r := ExtendRoute(p, col, power, leg, current, draws);
      && multiset(r.route) + multiset(r.remaining) == multiset(leg.route) + multiset(leg.remaining)
      && |r.route| + |r.remaining| == |leg.route| + |leg.remaining|
      && (Candidates(p, leg.remaining, leg.load) != [] ==> |r.route| > |leg.route|)
    decreases |leg.remaining|
  {
    if Candidates(p, leg.remaining, leg.load) != [] {
      ExtendRouteStep(p, col, power, leg, current, draws);
      var next := Chosen(col, power, current, Candidates(p, leg.remaining, leg.load), draws[leg.cursor]);
      var leg' := TakeCustomer(p, leg, next);
      ExtendRouteTakes(p, col, power, leg', next, draws);
      TakeCustomerKeeps(p, leg, next, ExtendRoute(p, col, power, leg', next, draws));
    }
  }

  /** What the rest of the route, built after taking `next`, says about the
      route before it. */
  lemma TakeCustomerKeeps(p: Problem, leg: Leg, next: nat, r: Leg)
    requires LegInRange(leg, |p.customers|) && next in leg.remaining
    requires |r.route| + |r.remaining| == |leg.route| + 1 + |RemoveFirst(leg.remaining, next)|
    requires multiset(r.route) + multiset(r.remaining) ==
      multiset(leg.route + [next]) + multiset(RemoveFirst(leg.remaining, next))
    ensures |r.route| + |r.remaining| == |leg.route| + |leg.remaining|
    ensures multiset(r.route) + multiset(r.remaining) == multiset(leg.route) + multiset(leg.remaining)
  {
    assert multiset(leg.route + [next]) == multiset(leg.route) + multiset{next};
  }

  /** The load is the demand of the route whenever it was so at the start. */
  lemma {:induction false} ExtendRouteLoad(p: Problem, col: Colony, power: (real, real) -> real,
                                           leg: Leg, current: nat, draws: seq<real>)
    requires Ready(p) && Shaped(col, |p.customers|) && NonNegativePower(power)
    requires LegInRange(leg, |p.customers|) && current < |p.customers|
    requires Draws(draws) && leg.cursor + |leg.remaining| <= |draws|
    requires leg.load == RouteDemand(p, leg.route)
    ensures var r := ExtendRoute(p, col, power, leg, current, draws);
      r.load == RouteDemand(p, r.route)
    decreases |leg.remaining|
  {
    if Candidates(p, leg.remaining, leg.load) != [] {
      ExtendRouteStep(p, col, power, leg, current, draws);
      var next := Chosen(col, power, current, Candidates(p, leg.remaining, leg.load), draws[leg.cursor]);
      var leg' := TakeCustomer(p, leg, next);
      assert leg'.route[..|leg.route|] == leg.route;
      ExtendRouteLoad(p, col, power, leg', next, draws);
    }
  }

  /** Once it has taken someone, the vehicle never carries more than its
      capacity. */
  lemma {:induction false} ExtendRouteCapacity(p: Problem, col: Colony, power: (real, real) -> real,
                                               leg: Leg, current: nat, draws: seq<real>)
    requires Ready(p) && Shaped(col, |p.customers|) && NonNegativePower(power)
    requires LegInRange(leg, |p.customers|) && current < |p.customers|
    requires Draws(draws) && leg.cursor + |leg.remaining| <= |draws|
    requires |leg.route| == 0 || leg.load <= p.capacity
    ensures var r := ExtendRoute(p, col, power, leg, current, draws);
      |r.route| == 0 || r.load <= p.capacity
    decreases |leg.remaining|
  {
    if Candidates(p, leg.remaining, leg.load) != [] {
      ExtendRouteStep(p, col, power, leg, current, draws);
      var next := Chosen(col, power, current, Candidates(p, leg.remaining, leg.load), draws[leg.cursor]);
      ExtendRouteCapacity(p, col, power, TakeCustomer(p, leg, next), next, draws);
    }
  }

  /** The vehicle returns to the depot only when no remaining customer fits. */
  lemma {:induction false} ExtendRouteMaximal(p: Problem, col: Colony, power: (real, real) -> real,
                                              leg: Leg, current: nat, draws: seq<real>)
    requires Ready(p) && Shaped(col, |p.customers|) && NonNegativePower(power)
    requires LegInRange(leg, |p.customers|) && current < |p.customers|
    requires Draws(draws) && leg.cursor + |leg.remaining| <= |draws|
    ensures var r := ExtendRoute(p, col, power, leg, current, draws);
      forall k :: 0 <= k < |r.remaining| ==> r.load + p.customers[r.remaining[k]].demand > p.capacity
    decreases |leg.remaining|
  {
    if Candidates(p, leg.remaining, leg.load) == [] {
      forall k | 0 <= k < |leg.remaining|
        ensures leg.load + p.customers[leg.remaining[k]].demand > p.capacity
      {
        CandidatesExact(p, leg.remaining, leg.load, leg.remaining[k]);
      }
    } else {
      ExtendRouteStep(p, col, power, leg, current, draws);
      var next := Chosen(col, power, current, Candidates(p, leg.remaining, leg.load), draws[leg.cursor]);
      ExtendRouteMaximal(p, col, power, TakeCustomer(p, leg, next), next, draws);
    }
  }

  /** One draw is used per customer taken. */
  lemma {:induction false} ExtendRouteDraws(p: Problem, col: Colony, power: (real, real) -> real,
                                            leg: Leg, current: nat, draws: seq<real>)
    requires Ready(p) && Shaped(col, |p.customers|) && NonNegativePower(power)
    requires LegInRange(leg, |p.customers|) && current < |p.customers|
    requires Draws(draws) && leg.cursor + |leg.remaining| <= |draws|
    ensures var r := ExtendRoute(p, col, power, leg, current, draws);
      r.cursor + |r.remaining| == leg.cursor + |leg.remaining|
    decreases |leg.remaining|
  {
    if Candidates(p, leg.remaining, leg.load) != [] {
      ExtendRouteStep(p, col, power, leg, current, draws);
      var next := Chosen(col, power, current, Candidates(p, leg.remaining, leg.load), draws[leg.cursor]);
      ExtendRouteDraws(p, col, power, TakeCustomer(p, leg, next), next, draws);
    }
  }

  /** A fresh vehicle leaving the depot with the given remaining list. */
  function Depart(remaining: seq<nat>, cursor: nat): Leg {
    Leg([], 0, remaining, cursor)
  }

  /** No depot among the customers to serve. */
  ghost predicate Customers(remaining: seq<nat>) {
    forall k :: 0 <= k < |remaining| ==> remaining[k] >= 1
  }

  /** What a vehicle leaves behind out of a list of customers is again a
      list of customers. */
  lemma LeftoverCustomers(taken: seq<nat>, rest: seq<nat>, remaining: seq<nat>)
    requires Customers(remaining) && multiset(taken) + multiset(rest) == multiset(remaining)
    ensures Customers(rest)
  {
    forall k | 0 <= k < |rest|
      ensures rest[k] >= 1
    {
      assert rest[k] in multiset(rest);
      assert rest[k] in multiset(remaining);
    }
  }

  /** An empty vehicle always takes someone when every demand fits in it,
      and it leaves customers behind with enough draws for them. */
  lemma VehicleTakesSomeone(p: Problem, col: Colony, power: (real, real) -> real,
                            remaining: seq<nat>, draws: seq<real>, cursor: nat)
    requires Ready(p) && Shaped(col, |p.customers|) && NonNegativePower(power) && AllDemandsFit(p)
    requires InRange(remaining, |p.customers|) && Customers(remaining) && |remaining| > 0
    requires Draws(draws) && cursor + |remaining| <= |draws|
    ensures |p.customers| > 0
    ensures var leg := ExtendRoute(p, col, power, Depart(remaining, cursor), 0, draws);
      && |leg.route| > 0 && |leg.remaining| < |remaining|
      && Customers(leg.remaining)
      && leg.cursor + |leg.remaining| <= |draws|
  {
    var start := Depart(remaining, cursor);
    var first := remaining[0];
    assert first < |p.customers|;
    assert first in remaining && 1 <= first < |p.customers|;
    CandidatesExact(p, remaining, 0, first);
    ExtendRouteTakes(p, col, power, start, 0, draws);
    ExtendRouteDraws(p, col, power, start, 0, draws);
    var leg := ExtendRoute(p, col, power, start, 0, draws);
    assert multiset(start.route) == multiset{};
    LeftoverCustomers(leg.route, leg.remaining, remaining);
  }

  /** The outer `while remaining` loop of `construct_solution`: vehicles
      are dispatched one after the other until every customer is served;
      a vehicle that took nobody is not recorded. */
  function Dispatch(p: Problem, col: Colony, power: (real, real) -> real,
                    remaining: seq<nat>, draws: seq<real>, cursor: nat): Solution
    requires Ready(p) && Shaped(col, |p.customers|) && NonNegativePower(power) && AllDemandsFit(p)
    requires InRange(remaining, |p.customers|) && Customers(remaining)
    requires Draws(draws) && cursor + |remaining| <= |draws|
    decreases |remaining|
  {
    if |remaining| == 0 then []
    else
      assert remaining[0] < |p.customers|;
      var leg := ExtendRoute(p, col, power, Depart(remaining, cursor), 0, draws);
      VehicleTakesSomeone(p, col, power, remaining, draws, cursor);
      (if |leg.route| > 0 then [leg.route] else []) + Dispatch(p, col, power, leg.remaining, draws, leg.cursor)
  }

  /** With customers left, `Dispatch` records the first vehicle's route and
      goes on with what that vehicle left behind. */
  lemma DispatchStep(p: Problem, col: Colony, power: (real, real) -> real,
                     remaining: seq<nat>, draws: seq<real>, cursor: nat)
    requires Ready(p) && Shaped(col, |p.customers|) && NonNegativePower(power) && AllDemandsFit(p)
    requires InRange(remaining, |p.customers|) && Customers(remaining) && |remaining| > 0
    requires Draws(draws) && cursor + |remaining| <= |draws|
    ensures |p.customers| > 0
    ensures var leg := ExtendRoute(p, col, power, Depart(remaining, cursor), 0, draws);
      && |leg.route| > 0 && |leg.remaining| < |remaining|
      && Customers(leg.remaining) && leg.cursor + |leg.remaining| <= |draws|
      && Dispatch(p, col, power, remaining, draws, cursor) ==
         [leg.route] + Dispatch(p, col, power, leg.remaining, draws, leg.cursor)
  {
    VehicleTakesSomeone(p, col, power, remaining, draws, cursor);
  }

  /** Prepending a route to a solution. */
  lemma ConsRoute(p: Problem, route: Route, rest: Solution)
    requires InRange(route, |p.customers|) && AllInRange(rest, |p.customers|)
    ensures AllInRange([route] + rest, |p.customers|)
    ensures Flatten([route] + rest) == route + Flatten(rest)
    ensures |route| > 0 && NonEmptyRoutes(rest) ==> NonEmptyRoutes([route] + rest)
  {
    FlattenConcat([route], rest);
    FlattenSingle(route);
    var r := [route] + rest;
    assert forall i :: 1 <= i < |r| ==> r[i] == rest[i - 1];
  }

  lemma CapacityCons(p: Problem, route: Route, rest: Solution)
    requires InRange(route, |p.customers|) && AllInRange(rest, |p.customers|)
    requires RouteDemand(p, route) <= p.capacity && WithinCapacity(p, rest)
    ensures AllInRange([route] + rest, |p.customers|) && WithinCapacity(p, [route] + rest)
  {
    var r := [route] + rest;
    assert forall i :: 1 <= i < |r| ==> r[i] == rest[i - 1];
  }

  /** Every remaining customer ends up in exactly one of the dispatched
      routes, and no route is empty. */
  lemma {:induction false} DispatchCovers(p: Problem, col: Colony, power: (real, real) -> real,
                                          remaining: seq<nat>, draws: seq<real>, cursor: nat)
    requires Ready(p) && Shaped(col, |p.customers|) && NonNegativePower(power) && AllDemandsFit(p)
    requires InRange(remaining, |p.customers|) && Customers(remaining)
    requires Draws(draws) && cursor + |remaining| <= |draws|
    ensures var r := Dispatch(p, col, power, remaining, draws, cursor);
      && multiset(Flatten(r)) == multiset(remaining)
      && AllInRange(r, |p.customers|) && NonEmptyRoutes(r)
    decreases |remaining|
  {
    if |remaining| > 0 {
      var start := Depart(remaining, cursor);
      var leg := ExtendRoute(p, col, power, start, 0, draws);
      DispatchStep(p, col, power, remaining, draws, cursor);
      ExtendRouteTakes(p, col, power, start, 0, draws);
      DispatchCovers(p, col, power, leg.remaining, draws, leg.cursor);
      var rest := Dispatch(p, col, power, leg.remaining, draws, leg.cursor);
      ConsRoute(p, leg.route, rest);
      assert multiset(start.route) == multiset{};
    } else {
      assert Flatten<nat>([]) == [];
    }
  }

  /** No dispatched vehicle is loaded beyond its capacity. */
  lemma {:induction false} DispatchFits(p: Problem, col: Colony, power: (real, real) -> real,
                                        remaining: seq<nat>, draws: seq<real>, cursor: nat)
    requires Ready(p) && Shaped(col, |p.customers|) && NonNegativePower(power) && AllDemandsFit(p)
    requires InRange(remaining, |p.customers|) && Customers(remaining)
    requires Draws(draws) && cursor + |remaining| <= |draws|
    ensures AllInRange(Dispatch(p, col, power, remaining, draws, cursor), |p.customers|)
    ensures WithinCapacity(p, Dispatch(p, col, power, remaining, draws, cursor))
    decreases |remaining|
  {
    DispatchCovers(p, col, power, remaining, draws, cursor);
    if |remaining| > 0 {
      var start := Depart(remaining, cursor);
      var leg := ExtendRoute(p, col, power, start, 0, draws);
      DispatchStep(p, col, power, remaining, draws, cursor);
      assert RouteDemand(p, start.route) == 0;
      ExtendRouteLoad(p, col, power, start, 0, draws);
      ExtendRouteCapacity(p, col, power, start, 0, draws);
      assert RouteDemand(p, leg.route) <= p.capacity;
      var rest := Dispatch(p, col, power, leg.remaining, draws, leg.cursor);
      DispatchCovers(p, col, power, leg.remaining, draws, leg.cursor);
      DispatchFits(p, col, power, leg.remaining, draws, leg.cursor);
      assert WithinCapacity(p, rest);
      CapacityCons(p, leg.route, rest);
    }
  }

  /** `construct_solution`: one ant's complete solution, drawing one number
      per customer. Provided every customer fits in an empty vehicle (the
      source loops forever otherwise), the result serves every customer
      exactly once, with no empty route and no overloaded vehicle. */
  function ConstructSolution(p: Problem, col: Colony, power: (real, real) -> real, draws: seq<real>): (s: Solution)
    requires Ready(p) && Shaped(col, |p.customers|) && |draws| + 1 >= |p.customers|
    requires NonNegativePower(power) && AllDemandsFit(p) && Draws(draws)
    ensures ValidSolution(p, s) && NonEmptyRoutes(s)
  {
    var n := |p.customers|;
    var all := Range(1, n);
    assert InRange(all, n) && Customers(all);
    DispatchCovers(p, col, power, all, draws, 0);
    DispatchFits(p, col, power, all, draws, 0);
    var s := Dispatch(p, col, power, all, draws, 0);
    ExactlyOnceIsRange(Flatten(s), n);
    s
  }

  // ----- pheromone update -----

  /** `(1 - rho) * pheromone`: every entry loses the fraction rho. */
  function Evaporate(m: Matrix, rho: real): (r: Matrix)
    ensures |r| == |m| && forall i :: 0 <= i < |m| ==> |r[i]| == |m[i]|
    ensures forall i, j :: 0 <= i < |m| && 0 <= j < |m[i]| ==> r[i][j] == (1.0 - rho) * m[i][j]
  {
    seq(|m|, i requires 0 <= i < |m| => seq(|m[i]|, j requires 0 <= j < |m[i]| => (1.0 - rho) * m[i][j]))
  }

  /** `pheromone[a, b] += delta`. */
  function AddAt(m: Matrix, a: nat, b: nat, delta: real): (r: Matrix)
    requires a < |m| && b < |m[a]|
    ensures |r| == |m| && forall i :: 0 <= i < |m| ==> |r[i]| == |m[i]|
  {
    m[a := m[a][b := m[a][b] + delta]]
  }

  /** An edge of a route, from the first node to the second. */
  type Edge = (nat, nat)

  /** How often depositing on edge e touches entry [i][j]: once as [a][b]
      and once as [b][a], so twice on the diagonal. */
  function EdgeHits(e: Edge, i: nat, j: nat): nat {
    (if e == (i, j) then 1 else 0) + (if e == (j, i) then 1 else 0)
  }

  /** The two updates of the source's inner loop for one edge: the entry in
      both directions receives delta. */
  function DepositEdge(m: Matrix, e: Edge, delta: real): (r: Matrix)
    requires e.0 < |m| && e.1 < |m| && e.1 < |m[e.0]| && e.0 < |m[e.1]|
    ensures |r| == |m| && forall i :: 0 <= i < |m| ==> |r[i]| == |m[i]|
  {
    AddAt(AddAt(m, e.0, e.1, delta), e.1, e.0, delta)
  }

  /** n deposits of delta, added one after another. */
  function Times(delta: real, n: nat): real {
    if n == 0 then 0.0 else Times(delta, n - 1) + delta
  }

  lemma {:induction false} TimesAdd(delta: real, a: nat, b: nat)
    ensures Times(delta, a + b) == Times(delta, a) + Times(delta, b)
  {
    if b > 0 {
      TimesAdd(delta, a, b - 1);
    }
  }

  lemma {:induction false} TimesNonNegative(delta: real, n: nat)
    requires delta >= 0.0
    ensures Times(delta, n) >= 0.0
  {
    if n > 0 {
      TimesNonNegative(delta, n - 1);
    }
  }

  /** Entry [i][j] receives delta once for each direction the edge matches. */
  lemma DepositEdgeAt(m: Matrix, e: Edge, delta: real, i: nat, j: nat)
    requires e.0 < |m| && e.1 < |m| && e.1 < |m[e.0]| && e.0 < |m[e.1]|
    requires i < |m| && j < |m[i]|
    ensures DepositEdge(m, e, delta)[i][j] == m[i][j] + Times(delta, EdgeHits(e, i, j))
  {
    assert Times(delta, 1) == delta;
    assert Times(delta, 2) == delta + delta;
  }

  /** The edges the source's loop walks for one route: from the depot to
      the first customer, between consecutive customers, and from the last
      back to the depot. An empty route yields the single edge (0, 0). */
  function RouteEdges(route: Route): (es: seq<Edge>)
    ensures |es| == |route| + 1
    ensures es[0].0 == 0 && es[|route|].1 == 0
    ensures forall k :: 0 <= k < |route| ==> es[k].1 == route[k] && es[k + 1].0 == route[k]
  {
    seq(|route| + 1, k requires 0 <= k <= |route| =>
      (if k == 0 then 0 else route[k - 1], if k == |route| then 0 else route[k]))
  }

  /** All edges of a solution, route after route. */
  function SolutionEdges(s: Solution): seq<Edge> {
    if |s| == 0 then [] else SolutionEdges(s[..|s| - 1]) + RouteEdges(s[|s| - 1])
  }

  ghost predicate EdgesInRange(es: seq<Edge>, n: nat) {
    forall k :: 0 <= k < |es| ==> es[k].0 < n && es[k].1 < n
  }

  /** Every edge of a solution joins nodes of the problem when its routes do
      and there is a depot whenever there is a route. */
  lemma {:induction false} SolutionEdgesInRange(s: Solution, n: nat)
    requires AllInRange(s, n) && (|s| == 0 || n > 0)
    ensures EdgesInRange(SolutionEdges(s), n)
    decreases |s|
  {
    if |s| > 0 {
      SolutionEdgesInRange(s[..|s| - 1], n);
      var es := RouteEdges(s[|s| - 1]);
      assert InRange(s[|s| - 1], n);
      assert EdgesInRange(es, n);
    }
  }

  /** Deposits delta on the first k edges of the list, in order. */
  function DepositEdges(m: Matrix, es: seq<Edge>, delta: real, k: nat): (r: Matrix)
    requires IsSquare(m, |m|) && EdgesInRange(es, |m|) && k <= |es|
    ensures IsSquare(r, |m|)
  {
    if k == 0 then m
    else DepositEdge(DepositEdges(m, es, delta, k - 1), es[k - 1], delta)
  }

  /** How often the first k edges of the list touch entry [i][j]. */
  function Hits(es: seq<Edge>, k: nat, i: nat, j: nat): nat
    requires k <= |es|
  {
    if k == 0 then 0 else Hits(es, k - 1, i, j) + EdgeHits(es[k - 1], i, j)
  }

  /** The amount an ant deposits on each edge it used: q over its cost
      (nothing for a zero-cost solution). */
  function Delta(q: real, cost: real): (d: real)
    ensures q >= 0.0 ==> d >= 0.0
  {
    if cost > 0.0 then q / cost else 0.0
  }

  /** The pheromone matrix after the first k (solution, cost) pairs. */
  function DepositUpTo(m: Matrix, solutions: seq<Solution>, costs: seq<real>, q: real, k: nat): (r: Matrix)
    requires IsSquare(m, |m|) && k <= |solutions| && k <= |costs|
    requires forall t :: 0 <= t < k ==> EdgesInRange(SolutionEdges(solutions[t]), |m|)
    ensures IsSquare(r, |m|)
  {
    if k == 0 then m
    else
      var es := SolutionEdges(solutions[k - 1]);
      DepositEdges(DepositUpTo(m, solutions, costs, q, k - 1), es, Delta(q, costs[k - 1]), |es|)
  }

  /** The number of pairs `zip(solutions, costs)` yields. */
  function Pairs(solutions: seq<Solution>, costs: seq<real>): nat {
    if |solutions| <= |costs| then |solutions| else |costs|
  }

  /** Every solution's edges stay inside the matrix. */
  ghost predicate Depositable(solutions: seq<Solution>, n: nat) {
    forall t :: 0 <= t < |solutions| ==> EdgesInRange(SolutionEdges(solutions[t]), n)
  }

  /** `update_pheromone`: evaporation, then each ant's deposit on every
      edge of its solution. What it computes is stated by
      `UpdatePheromoneClosedForm`. */
  function UpdatePheromone(col: Colony, solutions: seq<Solution>, costs: seq<real>): (m: Matrix)
    requires IsSquare(col.pheromone, |col.pheromone|) && Depositable(solutions, |col.pheromone|)
    ensures IsSquare(m, |col.pheromone|)
  {
    DepositUpTo(Evaporate(col.pheromone, col.rho), solutions, costs, col.q, Pairs(solutions, costs))
  }

  /** The total deposit on entry [i][j] from the first k ants. */
  function Deposited(solutions: seq<Solution>, costs: seq<real>, q: real, k: nat, i: nat, j: nat): real
    requires k <= |solutions| && k <= |costs|
  {
    if k == 0 then 0.0
    else
      var es := SolutionEdges(solutions[k - 1]);
      Deposited(solutions, costs, q, k - 1, i, j) + Times(Delta(q, costs[k - 1]), Hits(es, |es|, i, j))
  }

  lemma {:induction false} DepositEdgesClosedForm(m: Matrix, es: seq<Edge>, delta: real, k: nat, i: nat, j: nat)
    requires IsSquare(m, |m|) && EdgesInRange(es, |m|) && k <= |es| && i < |m| && j < |m|
    ensures DepositEdges(m, es, delta, k)[i][j] == m[i][j] + Times(delta, Hits(es, k, i, j))
  {
    if k > 0 {
      var e := es[k - 1];
      var before := DepositEdges(m, es, delta, k - 1);
      DepositEdgesClosedForm(m, es, delta, k - 1, i, j);
      DepositEdgeAt(before, e, delta, i, j);
      TimesAdd(delta, Hits(es, k - 1, i, j), EdgeHits(e, i, j));
    }
  }

  lemma {:induction false} DepositUpToClosedForm(m: Matrix, solutions: seq<Solution>, costs: seq<real>, q: real, k: nat, i: nat, j: nat)
    requires IsSquare(m, |m|) && k <= |solutions| && k <= |costs| && i < |m| && j < |m|
    requires forall t :: 0 <= t < k ==> EdgesInRange(SolutionEdges(solutions[t]), |m|)
    ensures DepositUpTo(m, solutions, costs, q, k)[i][j] == m[i][j] + Deposited(solutions, costs, q, k, i, j)
  {
    if k > 0 {
      var before := DepositUpTo(m, solutions, costs, q, k - 1);
      var es := SolutionEdges(solutions[k - 1]);
      DepositUpToClosedForm(m, solutions, costs, q, k - 1, i, j);
      DepositEdgesClosedForm(before, es, Delta(q, costs[k - 1]), |es|, i, j);
    }
  }

  /** After the update, each entry is its evaporated old value plus, for
      every ant paired with a cost, q / cost times the number of times the
      ant's solution travelled that edge in either direction. */
  lemma UpdatePheromoneClosedForm(col: Colony, solutions: seq<Solution>, costs: seq<real>, i: nat, j: nat)
    requires IsSquare(col.pheromone, |col.pheromone|) && Depositable(solutions, |col.pheromone|)
    requires i < |col.pheromone| && j < |col.pheromone|
    ensures UpdatePheromone(col, solutions, costs)[i][j] ==
      (1.0 - col.rho) * col.pheromone[i][j] + Deposited(solutions, costs, col.q, Pairs(solutions, costs), i, j)
  {
    var evaporated := Evaporate(col.pheromone, col.rho);
    DepositUpToClosedForm(evaporated, solutions, costs, col.q, Pairs(solutions, costs), i, j);
    assert evaporated[i][j] == (1.0 - col.rho) * col.pheromone[i][j];
  }

  lemma {:induction false} HitsSymmetric(es: seq<Edge>, k: nat, i: nat, j: nat)
    requires k <= |es|
    ensures Hits(es, k, i, j) == Hits(es, k, j, i)
  {
    if k > 0 {
      HitsSymmetric(es, k - 1, i, j);
    }
  }

  lemma {:induction false} DepositedSymmetric(solutions: seq<Solution>, costs: seq<real>, q: real, k: nat, i: nat, j: nat)
    requires k <= |solutions| && k <= |costs|
    ensures Deposited(solutions, costs, q, k, i, j) == Deposited(solutions, costs, q, k, j, i)
  {
    if k > 0 {
      DepositedSymmetric(solutions, costs, q, k - 1, i, j);
      var es := SolutionEdges(solutions[k - 1]);
      HitsSymmetric(es, |es|, i, j);
    }
  }

  /** The pheromone matrix stays symmetric: the graph is undirected. */
  lemma UpdateKeepsSymmetry(col: Colony, solutions: seq<Solution>, costs: seq<real>)
    requires IsSquare(col.pheromone, |col.pheromone|) && Depositable(solutions, |col.pheromone|)
    requires Symmetric(col.pheromone)
    ensures Symmetric(UpdatePheromone(col, solutions, costs))
  {
    var m := UpdatePheromone(col, solutions, costs);
    forall i, j | 0 <= i < |m| && 0 <= j < |m|
      ensures m[i][j] == m[j][i]
    {
      UpdatePheromoneClosedForm(col, solutions, costs, i, j);
      UpdatePheromoneClosedForm(col, solutions, costs, j, i);
      DepositedSymmetric(solutions, costs, col.q, Pairs(solutions, costs), i, j);
    }
  }

  lemma {:induction false} DepositedNonNegative(solutions: seq<Solution>, costs: seq<real>, q: real, k: nat, i: nat, j: nat)
    requires k <= |solutions| && k <= |costs| && q >= 0.0
    ensures Deposited(solutions, costs, q, k, i, j) >= 0.0
  {
    if k > 0 {
      DepositedNonNegative(solutions, costs, q, k - 1, i, j);
      var es := SolutionEdges(solutions[k - 1]);
      TimesNonNegative(Delta(q, costs[k - 1]), Hits(es, |es|, i, j));
    }
  }

  /** With an evaporation rate in [0, 1] and a non-negative q, pheromone
      never becomes negative. */
  lemma UpdateKeepsNonNegative(col: Colony, solutions: seq<Solution>, costs: seq<real>)
    requires IsSquare(col.pheromone, |col.pheromone|) && Depositable(solutions, |col.pheromone|)
    requires NonNegative(col.pheromone) && 0.0 <= col.rho <= 1.0 && col.q >= 0.0
    ensures NonNegative(UpdatePheromone(col, solutions, costs))
  {
    var m := UpdatePheromone(col, solutions, costs);
    forall i, j | 0 <= i < |m| && 0 <= j < |m[i]|
      ensures m[i][j] >= 0.0
    {
      UpdatePheromoneClosedForm(col, solutions, costs, i, j);
      DepositedNonNegative(solutions, costs, col.q, Pairs(solutions, costs), i, j);
      ProductNonNegative(1.0 - col.rho, col.pheromone[i][j]);
    }
  }

  // ----- the main loop -----

  /** The costs of a list of solutions, as `ant_costs` collects them. */
  function CostsOf(p: Problem, sols: seq<Solution>): (costs: seq<real>)
    requires Ready(p) && forall a :: 0 <= a < |sols| ==> AllInRange(sols[a], |p.customers|)
    ensures |costs| == |sols|
  {
    seq(|sols|, a requires 0 <= a < |sols| => SolutionCost(p, sols[a]))
  }

  /** Every solution every ant produced is valid. */
  ghost predicate ValidTrace(p: Problem, trace: seq<seq<Solution>>) {
    forall k, a :: 0 <= k < |trace| && 0 <= a < |trace[k]| ==> ValidSolution(p, trace[k][a])
  }

  /** The solutions of one iteration's ants, ant a drawing from `draws[a]`. */
  function AntSolutions(p: Problem, col: Colony, power: (real, real) -> real, draws: seq<seq<real>>): (sols: seq<Solution>)
    requires Ready(p) && Shaped(col, |p.customers|) && NonNegativePower(power) && AllDemandsFit(p)
    requires |draws| >= Count(col.numAnts)
    requires forall a :: 0 <= a < Count(col.numAnts) ==> |draws[a]| + 1 >= |p.customers| && Draws(draws[a])
    ensures |sols| == Count(col.numAnts)
    ensures forall a :: 0 <= a < |sols| ==> ValidSolution(p, sols[a]) && NonEmptyRoutes(sols[a])
  {
    seq(Count(col.numAnts), a requires 0 <= a < Count(col.numAnts) => ConstructSolution(p, col, power, draws[a]))
  }

  /** One iteration of `run`: from pheromone `before`, each ant builds its
      solution from its own draws, and the update turns `before` into
      `after`. */
  ghost predicate Iteration(p: Problem, col: Colony, power: (real, real) -> real,
                            draws: seq<seq<real>>, before: Matrix, sols: seq<Solution>, after: Matrix)
  {
    Ready(p) && Shaped(col.(pheromone := before), |p.customers|) && NonNegativePower(power) && AllDemandsFit(p)
    && |draws| >= Count(col.numAnts)
    && (forall a :: 0 <= a < Count(col.numAnts) ==> |draws[a]| + 1 >= |p.customers| && Draws(draws[a]))
    && sols == AntSolutions(p, col.(pheromone := before), power, draws)
    && Depositable(sols, |before|)
    && after == UpdatePheromone(col.(pheromone := before), sols, CostsOf(p, sols))
  }

  /** The whole run: `levels[k]` is the pheromone at the start of iteration
      k, and iteration k used the draws `draws[k]`. */
  ghost predicate Trace(p: Problem, col: Colony, power: (real, real) -> real,
                        draws: seq<seq<seq<real>>>, trace: seq<seq<Solution>>, levels: seq<Matrix>)
  {
    |levels| == |trace| + 1 && levels[0] == col.pheromone && |draws| >= |trace|
    && forall k :: 0 <= k < |trace| ==> Iteration(p, col, power, draws[k], levels[k], trace[k], levels[k + 1])
  }

  /** c is the lowest cost of the solutions of iterations 0 to k: no higher
      than any of them and, unless no ant ran, the cost of one of them. */
  ghost predicate BestOf(p: Problem, trace: seq<seq<Solution>>, k: nat, c: Cost)
    requires Ready(p) && k < |trace| && ValidTrace(p, trace)
  {
    (forall k', a :: 0 <= k' <= k && 0 <= a < |trace[k']| ==> AtMost(c, Finite(SolutionCost(p, trace[k'][a]))))
    && (c.Infinite? <==> forall k' :: 0 <= k' <= k ==> |trace[k']| == 0)
    && (c.Finite? ==> exists k', a :: 0 <= k' <= k && 0 <= a < |trace[k']| && c.value == SolutionCost(p, trace[k'][a]))
  }

  /** The next ant's solution extends the list of the solutions built so far. */
  lemma AntsAppend(p: Problem, col: Colony, power: (real, real) -> real, draws: seq<seq<real>>, sols: seq<Solution>)
    requires Ready(p) && Shaped(col, |p.customers|) && NonNegativePower(power) && AllDemandsFit(p)
    requires |sols| < |draws|
    requires forall a :: 0 <= a < |draws| ==> |draws[a]| + 1 >= |p.customers| && Draws(draws[a])
    requires forall b :: 0 <= b < |sols| ==> sols[b] == ConstructSolution(p, col, power, draws[b])
    ensures var sols' := sols + [ConstructSolution(p, col, power, draws[|sols|])];
      forall b :: 0 <= b < |sols'| ==> sols'[b] == ConstructSolution(p, col, power, draws[b])
  {
  }

  /** Appending a valid solution and its cost keeps the costs in step. */
  lemma CostsAppend(p: Problem, sols: seq<Solution>, costs: seq<real>, s: Solution)
    requires Ready(p) && |costs| == |sols| && ValidSolution(p, s)
    requires forall b :: 0 <= b < |sols| ==> ValidSolution(p, sols[b]) && costs[b] == SolutionCost(p, sols[b])
    ensures var sols', costs' := sols + [s], costs + [SolutionCost(p, s)];
      forall b :: 0 <= b < |sols'| ==> ValidSolution(p, sols'[b]) && costs'[b] == SolutionCost(p, sols'[b])
  {
  }

  /** Every ant builds a solution from its own draws and the source
      records its cost. */
  method BuildAnts(p: Problem, col: Colony, power: (real, real) -> real, draws: seq<seq<real>>)
    returns (sols: seq<Solution>, costs: seq<real>)
    requires Ready(p) && Shaped(col, |p.customers|) && NonNegativePower(power) && AllDemandsFit(p)
    requires |draws| >= Count(col.numAnts)
    requires forall a :: 0 <= a < |draws| ==> |draws[a]| + 1 >= |p.customers| && Draws(draws[a])
    ensures |sols| == Count(col.numAnts) && |costs| == |sols|
    ensures forall a :: 0 <= a < |sols| ==> sols[a] == ConstructSolution(p, col, power, draws[a])
    ensures forall a :: 0 <= a < |sols| ==> ValidSolution(p, sols[a]) && costs[a] == SolutionCost(p, sols[a])
    ensures sols == AntSolutions(p, col, power, draws)
  {
    sols, costs := [], [];
    var a := 0;
    while a < Count(col.numAnts)
      invariant a <= Count(col.numAnts) && |sols| == a && |costs| == a
      invariant forall b :: 0 <= b < a ==> sols[b] == ConstructSolution(p, col, power, draws[b])
      invariant forall b :: 0 <= b < a ==> ValidSolution(p, sols[b]) && costs[b] == SolutionCost(p, sols[b])
    {
      var s := ConstructSolution(p, col, power, draws[a]);
      assert ValidSolution(p, s);
      AntsAppend(p, col, power, draws, sols);
      CostsAppend(p, sols, costs, s);
      sols, costs := sols + [s], costs + [SolutionCost(p, s)];
      a := a + 1;
    }
    assert forall b :: 0 <= b < |sols| ==> sols[b] == AntSolutions(p, col, power, draws)[b];
  }

  /** The `if cost < self.best_cost` updates over one iteration's ants:
      the best afterwards is the first ant of minimum cost if that beats
      the old best, and the old best otherwise. */
  method UpdateBest<S>(sols: seq<S>, costs: seq<real>, best: Option<S>, bestCost: Cost)
    returns (newBest: Option<S>, newCost: Cost)
    requires |costs| == |sols|
    ensures AtMost(newCost, bestCost)
    ensures forall a :: 0 <= a < |costs| ==> AtMost(newCost, Finite(costs[a]))
    ensures || (newBest == best && newCost == bestCost && forall a :: 0 <= a < |costs| ==> !Improves(costs[a], bestCost))
            || (exists a :: 0 <= a < |costs| && newBest == Some(sols[a]) && newCost == Finite(costs[a])
                  && Improves(costs[a], bestCost) && forall b :: 0 <= b < a ==> costs[a] < costs[b])
  {
    newBest, newCost := best, bestCost;
    ghost var w: int := -1;
    var a := 0;
    while a < |costs|
      invariant a <= |costs|
      invariant AtMost(newCost, bestCost)
      invariant forall b :: 0 <= b < a ==> AtMost(newCost, Finite(costs[b]))
      invariant -1 <= w < a
      invariant w == -1 ==> newBest == best && newCost == bestCost && forall b :: 0 <= b < a ==> !Improves(costs[b], bestCost)
      invariant w >= 0 ==> newBest == Some(sols[w]) && newCost == Finite(costs[w]) && Improves(costs[w], bestCost)
      invariant w >= 0 ==> forall b :: 0 <= b < w ==> costs[w] < costs[b]
    {
      if Improves(costs[a], newCost) {
        newBest, newCost := Some(sols[a]), Finite(costs[a]);
        w := a;
      }
      a := a + 1;
    }
  }

  /** Every edge of an ant's solution joins nodes of the problem. */
  lemma AntsDepositable(p: Problem, col: Colony, power: (real, real) -> real, draws: seq<seq<real>>)
    requires Ready(p) && Shaped(col, |p.customers|) && NonNegativePower(power) && AllDemandsFit(p)
    requires |draws| >= Count(col.numAnts)
    requires forall a :: 0 <= a < Count(col.numAnts) ==> |draws[a]| + 1 >= |p.customers| && Draws(draws[a])
    ensures Depositable(AntSolutions(p, col, power, draws), |p.customers|)
  {
    var sols := AntSolutions(p, col, power, draws);
    forall a | 0 <= a < |sols|
      ensures EdgesInRange(SolutionEdges(sols[a]), |p.customers|)
    {
      var s := sols[a];
      assert AllInRange(s, |p.customers|) && NonEmptyRoutes(s);
      if |s| > 0 {
        assert InRange(s[0], |p.customers|) && |s[0]| > 0;
      }
      SolutionEdgesInRange(s, |p.customers|);
    }
  }

  lemma TraceAppend(p: Problem, col: Colony, power: (real, real) -> real, draws: seq<seq<seq<real>>>,
                    trace: seq<seq<Solution>>, levels: seq<Matrix>, sols: seq<Solution>, next: Matrix)
    requires Trace(p, col, power, draws, trace, levels) && |draws| > |trace|
    requires Iteration(p, col, power, draws[|trace|], levels[|trace|], sols, next)
    ensures Trace(p, col, power, draws, trace + [sols], levels + [next])
  {
    var trace', levels' := trace + [sols], levels + [next];
    forall k | 0 <= k < |trace|
      ensures Iteration(p, col, power, draws[k], levels'[k], trace'[k], levels'[k + 1])
           == Iteration(p, col, power, draws[k], levels[k], trace[k], levels[k + 1])
    {
      assert trace'[k] == trace[k] && levels'[k] == levels[k] && levels'[k + 1] == levels[k + 1];
    }
    var K := |trace|;
    assert trace'[K] == sols && levels'[K] == levels[K] && levels'[K + 1] == next;
    assert Iteration(p, col, power, draws[K], levels'[K], trace'[K], levels'[K + 1])
        == Iteration(p, col, power, draws[K], levels[K], sols, next);
  }

  lemma ValidTraceAppend(p: Problem, trace: seq<seq<Solution>>, sols: seq<Solution>)
    requires ValidTrace(p, trace) && forall a :: 0 <= a < |sols| ==> ValidSolution(p, sols[a])
    ensures ValidTrace(p, trace + [sols])
  {
    var trace' := trace + [sols];
    forall k, a | 0 <= k < |trace'| && 0 <= a < |trace'[k]|
      ensures ValidSolution(p, trace'[k][a])
    {
      if k < |trace| {
        assert trace'[k] == trace[k];
      }
    }
  }

  /** What was the best of the first k + 1 iterations stays so when a
      further iteration is recorded. */
  lemma BestOfExtend(p: Problem, trace: seq<seq<Solution>>, sols: seq<Solution>, k: nat, c: Cost)
    requires Ready(p) && k < |trace| && ValidTrace(p, trace) && ValidTrace(p, trace + [sols])
    requires BestOf(p, trace, k, c)
    ensures BestOf(p, trace + [sols], k, c)
  {
    var trace' := trace + [sols];
    assert forall k' :: 0 <= k' <= k ==> trace'[k'] == trace[k'];
    if c.Finite? {
      var k', a :| 0 <= k' <= k && 0 <= a < |trace[k']| && c.value == SolutionCost(p, trace[k'][a]);
      assert trace'[k'][a] == trace[k'][a];
    }
  }

  /** The best after one more iteration: the running best of the earlier
      iterations lowered by the ants of this one. */
  lemma BestOfStep(p: Problem, trace: seq<seq<Solution>>, sols: seq<Solution>, costs: seq<real>, oldCost: Cost, newCost: Cost)
    requires Ready(p) && ValidTrace(p, trace) && ValidTrace(p, trace + [sols]) && |costs| == |sols|
    requires forall a :: 0 <= a < |sols| ==> ValidSolution(p, sols[a]) && costs[a] == SolutionCost(p, sols[a])
    requires |trace| == 0 ==> oldCost == Infinite
    requires |trace| > 0 ==> BestOf(p, trace, |trace| - 1, oldCost)
    requires AtMost(newCost, oldCost)
    requires forall a :: 0 <= a < |costs| ==> AtMost(newCost, Finite(costs[a]))
    requires || (newCost == oldCost && forall a :: 0 <= a < |costs| ==> !Improves(costs[a], oldCost))
             || (exists a :: 0 <= a < |costs| && newCost == Finite(costs[a]))
    ensures BestOf(p, trace + [sols], |trace|, newCost)
  {
    var trace', K := trace + [sols], |trace|;
    assert trace'[K] == sols;
    assert forall k' :: 0 <= k' < K ==> trace'[k'] == trace[k'];
    forall k', a | 0 <= k' <= K && 0 <= a < |trace'[k']|
      ensures AtMost(newCost, Finite(SolutionCost(p, trace'[k'][a])))
    {
      if k' < K {
        AtMostTransitive(newCost, oldCost, Finite(SolutionCost(p, trace[k'][a])));
      }
    }
    if |costs| > 0 {
      assert AtMost(newCost, Finite(costs[0]));
    }
    if newCost.Finite? {
      if newCost == oldCost && forall a :: 0 <= a < |costs| ==> !Improves(costs[a], oldCost) {
        var k', a :| 0 <= k' <= K - 1 && 0 <= a < |trace[k']| && oldCost.value == SolutionCost(p, trace[k'][a]);
        assert trace'[k'][a] == trace[k'][a];
        assert |trace'[k']| != 0;
      } else {
        var a :| 0 <= a < |costs| && newCost == Finite(costs[a]);
        assert trace'[K][a] == sols[a];
        assert |trace'[K]| != 0;
      }
    } else {
      assert |sols| == 0 && oldCost.Infinite?;
      forall k' | 0 <= k' <= K
        ensures |trace'[k']| == 0
      {
      }
    }
  }

  /** What holds after every iteration of `run`: the trace is the run so
      far, every history entry is the best of the iterations up to it, and
      the best solution is one the ants built, at the recorded cost. */
  ghost predicate Progress(p: Problem, col: Colony, power: (real, real) -> real, draws: seq<seq<seq<real>>>,
                           best: Option<Solution>, bestCost: Cost, history: seq<Cost>,
                           trace: seq<seq<Solution>>, levels: seq<Matrix>)
  {
    && Ready(p) && |history| == |trace|
    && Trace(p, col, power, draws, trace, levels)
    && ValidTrace(p, trace)
    && NonIncreasing(history, AtMost)
    && (forall k :: 0 <= k < |history| ==> BestOf(p, trace, k, history[k]))
    && bestCost == (if |history| == 0 then Infinite else history[|history| - 1])
    && (best.Some? <==> bestCost.Finite?)
    && (best.Some? ==> ValidSolution(p, best.value) && best.value in Flatten(trace))
    && (best.Some? ==> bestCost.value == SolutionCost(p, best.value))
  }

  /** One more iteration keeps `Progress`. */
  lemma RunStep(p: Problem, col: Colony, power: (real, real) -> real, draws: seq<seq<seq<real>>>,
                best: Option<Solution>, bestCost: Cost, history: seq<Cost>, trace: seq<seq<Solution>>, levels: seq<Matrix>,
                sols: seq<Solution>, costs: seq<real>, next: Matrix, newBest: Option<Solution>, newCost: Cost)
    requires Progress(p, col, power, draws, best, bestCost, history, trace, levels) && |draws| > |trace|
    requires Iteration(p, col, power, draws[|trace|], levels[|trace|], sols, next)
    requires |costs| == |sols|
    requires forall a :: 0 <= a < |sols| ==> ValidSolution(p, sols[a]) && costs[a] == SolutionCost(p, sols[a])
    requires AtMost(newCost, bestCost)
    requires forall a :: 0 <= a < |costs| ==> AtMost(newCost, Finite(costs[a]))
    requires || (newBest == best && newCost == bestCost && forall a :: 0 <= a < |costs| ==> !Improves(costs[a], bestCost))
             || (exists a :: 0 <= a < |costs| && newBest == Some(sols[a]) && newCost == Finite(costs[a]))
    ensures Progress(p, col, power, draws, newBest, newCost, history + [newCost], trace + [sols], levels + [next])
  {
    TraceAppend(p, col, power, draws, trace, levels, sols, next);
    ValidTraceAppend(p, trace, sols);
    HistoryStep(p, trace, sols, costs, history, bestCost, newCost);
    NonIncreasingSnoc(history, newCost);
    BestStaysBuilt(p, trace, sols, costs, best, bestCost, newBest, newCost);
  }

  /** Every entry of the extended history is the best up to its iteration. */
  lemma HistoryStep(p: Problem, trace: seq<seq<Solution>>, sols: seq<Solution>, costs: seq<real>,
                    history: seq<Cost>, bestCost: Cost, newCost: Cost)
    requires Ready(p) && ValidTrace(p, trace) && ValidTrace(p, trace + [sols]) && |history| == |trace|
    requires forall k :: 0 <= k < |history| ==> BestOf(p, trace, k, history[k])
    requires bestCost == (if |history| == 0 then Infinite else history[|history| - 1])
    requires |costs| == |sols|
    requires forall a :: 0 <= a < |sols| ==> ValidSolution(p, sols[a]) && costs[a] == SolutionCost(p, sols[a])
    requires AtMost(newCost, bestCost)
    requires forall a :: 0 <= a < |costs| ==> AtMost(newCost, Finite(costs[a]))
    requires || (newCost == bestCost && forall a :: 0 <= a < |costs| ==> !Improves(costs[a], bestCost))
             || (exists a :: 0 <= a < |costs| && newCost == Finite(costs[a]))
    ensures forall k :: 0 <= k < |history| + 1 ==> BestOf(p, trace + [sols], k, (history + [newCost])[k])
  {
    var history' := history + [newCost];
    forall k | 0 <= k < |history'|
      ensures BestOf(p, trace + [sols], k, history'[k])
    {
      if k < |history| {
        BestOfExtend(p, trace, sols, k, history[k]);
      } else {
        BestOfStep(p, trace, sols, costs, bestCost, newCost);
      }
    }
  }

  /** The new best is the old one or one of this iteration's solutions. */
  lemma BestStaysBuilt(p: Problem, trace: seq<seq<Solution>>, sols: seq<Solution>, costs: seq<real>,
                       best: Option<Solution>, bestCost: Cost, newBest: Option<Solution>, newCost: Cost)
    requires Ready(p) && |costs| == |sols|
    requires forall a :: 0 <= a < |sols| ==> ValidSolution(p, sols[a]) && costs[a] == SolutionCost(p, sols[a])
    requires best.Some? <==> bestCost.Finite?
    requires best.Some? ==> ValidSolution(p, best.value) && best.value in Flatten(trace)
    requires best.Some? ==> bestCost.value == SolutionCost(p, best.value)
    requires || (newBest == best && newCost == bestCost)
             || (exists a :: 0 <= a < |costs| && newBest == Some(sols[a]) && newCost == Finite(costs[a]))
    ensures newBest.Some? <==> newCost.Finite?
    ensures newBest.Some? ==> ValidSolution(p, newBest.value) && newBest.value in Flatten(trace + [sols])
    ensures newBest.Some? ==> newCost.value == SolutionCost(p, newBest.value)
  {
    FlattenSnoc(trace, sols);
    if !(newBest == best && newCost == bestCost) {
      var a :| 0 <= a < |costs| && newBest == Some(sols[a]) && newCost == Finite(costs[a]);
      assert sols[a] in Flatten(trace + [sols]);
    }
  }

  /** The body of `run`'s loop: the ants of one iteration, the best
      update, the pheromone update and the history entry. */
  method Iterate(p: Problem, col: Colony, power: (real, real) -> real, draws: seq<seq<seq<real>>>,
                 best: Option<Solution>, bestCost: Cost, history: seq<Cost>, trace: seq<seq<Solution>>,
                 levels: seq<Matrix>, pheromone: Matrix)
    returns (best': Option<Solution>, bestCost': Cost, history': seq<Cost>, trace': seq<seq<Solution>>,
             levels': seq<Matrix>, pheromone': Matrix)
    requires Shaped(col, |p.customers|) && NonNegativePower(power) && AllDemandsFit(p)
    requires Progress(p, col, power, draws, best, bestCost, history, trace, levels)
    requires |draws| > |trace| && |draws[|trace|]| >= Count(col.numAnts)
    requires forall a :: 0 <= a < |draws[|trace|]| ==> |draws[|trace|][a]| + 1 >= |p.customers| && Draws(draws[|trace|][a])
    requires levels[|trace|] == pheromone && IsSquare(pheromone, |p.customers|) && NonNegative(pheromone)
    requires 0.0 <= col.rho <= 1.0 && col.q >= 0.0
    ensures Progress(p, col, power, draws, best', bestCost', history', trace', levels')
    ensures |trace'| == |trace| + 1 && levels'[|trace'|] == pheromone' && IsSquare(pheromone', |p.customers|)
    ensures NonNegative(pheromone')
  {
    var now := col.(pheromone := pheromone);
    var d := draws[|trace|];
    var sols, costs := BuildAnts(p, now, power, d);
    var newBest, newCost := UpdateBest(sols, costs, best, bestCost);
    AntsDepositable(p, now, power, d);
    assert costs == CostsOf(p, sols);
    var next := UpdatePheromone(now, sols, costs);
    UpdateKeepsNonNegative(now, sols, costs);
    RunStep(p, col, power, draws, best, bestCost, history, trace, levels, sols, costs, next, newBest, newCost);
    best', bestCost' := newBest, newCost;
    trace', history', levels' := trace + [sols], history + [newCost], levels + [next];
    pheromone' := next;
  }

  /** `run`: up to max_iterations iterations, each checking the stop flag
      first (`stops[k]` is the flag as iteration k sees it); every ant
      builds a solution, the best is lowered, the pheromone updated and the
      best recorded in the history. The completion callback, when given,
      receives the final best. */
  method Run(p: Problem, col: Colony, power: (real, real) -> real, stops: seq<bool>,
             draws: seq<seq<seq<real>>>, hasCallback: bool)
    returns (best: Option<Solution>, bestCost: Cost, history: seq<Cost>, trace: seq<seq<Solution>>,
             levels: seq<Matrix>, completion: Option<(Option<Solution>, Cost)>)
    requires Ready(p) && Shaped(col, |p.customers|) && NonNegativePower(power) && AllDemandsFit(p)
    requires 0.0 <= col.rho <= 1.0 && col.q >= 0.0
    requires |stops| >= Count(col.maxIterations) && |draws| >= Count(col.maxIterations)
    requires forall it :: 0 <= it < |draws| ==> |draws[it]| >= Count(col.numAnts)
    requires forall it, a :: 0 <= it < |draws| && 0 <= a < |draws[it]| ==>
      |draws[it][a]| + 1 >= |p.customers| && Draws(draws[it][a])
    ensures |trace| <= Count(col.maxIterations) && |history| == |trace|
    ensures forall k :: 0 <= k < |trace| ==> !stops[k]
    ensures |trace| < Count(col.maxIterations) ==> stops[|trace|]
    ensures Trace(p, col, power, draws, trace, levels)
    ensures ValidTrace(p, trace)
    ensures NonIncreasing(history, AtMost)
    ensures forall k :: 0 <= k < |history| ==> BestOf(p, trace, k, history[k])
    ensures bestCost == if |history| == 0 then Infinite else history[|history| - 1]
    ensures best.Some? <==> bestCost.Finite?
    ensures best.Some? ==> ValidSolution(p, best.value) && best.value in Flatten(trace)
    ensures best.Some? ==> bestCost.value == SolutionCost(p, best.value)
    ensures completion == if hasCallback then Some((best, bestCost)) else None
  {
    best, bestCost, history, trace := None, Infinite, [], [];
    var pheromone := col.pheromone;
    levels := [pheromone];
    var it := 0;
    while it < Count(col.maxIterations) && !stops[it]
      invariant it <= Count(col.maxIterations) && |trace| == it
      invariant forall k :: 0 <= k < it ==> !stops[k]
      invariant Progress(p, col, power, draws, best, bestCost, history, trace, levels)
      invariant levels[it] == pheromone && IsSquare(pheromone, |p.customers|) && NonNegative(pheromone)
    {
      best, bestCost, history, trace, levels, pheromone :=
        Iterate(p, col, power, draws, best, bestCost, history, trace, levels, pheromone);
      it := it + 1;
    }
    completion := if hasCallback then Some((best, bestCost)) else None;
  }
}
