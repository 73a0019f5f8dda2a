/** The genetic solver of `core/genetic.py` (`GeneticAlgorithm_CVRP`): the
    random initial population, the sequential decoding of a chromosome into
    routes, fitness, tournament selection, ordered crossover (OX), swap
    mutation, elitist replacement and the generation loop of `run`.

    Randomness is an explicit oracle: the swaps `random.shuffle` makes, the
    indices `random.sample` draws, the uniform draws compared with the
    crossover and mutation rates, and the points `random.randint` picks are
    all inputs, each with the range the Python library guarantees. */
module Genetic {
  import opened SeqUtil
  import opened Cvrp

  /** An ordering of customers; a proper one lists each of 1..n-1 once. */
  type Chromosome = seq<nat>

  /** The parameters the constructor stores. */
  datatype Settings = Settings(
    populationSize: int, mutationRate: real, crossoverRate: real, elitism: int, maxGenerations: int)

  /** Every element of a proper chromosome is a customer index, and it
      has one gene per customer. */
  lemma ExactlyOnceInRange(c: Chromosome, n: nat)
    requires ExactlyOnce(c, n)
    ensures forall k :: 0 <= k < |c| ==> 1 <= c[k] < n
    ensures |c| == |Range(1, n)|
  {
    ExactlyOnceIsRange(c, n);
    assert |multiset(c)| == |multiset(Range(1, n))|;
    forall k | 0 <= k < |c|
      ensures 1 <= c[k] < n
    {
      assert multiset(c)[c[k]] > 0;
    }
  }

  // ----- swaps, mutation and shuffling -----

  /** `chromosome[i], chromosome[j] = chromosome[j], chromosome[i]`, the
      swap of `mutation` (i and j may coincide). */
  function Swap(s: Chromosome, i: nat, j: nat): (r: Chromosome)
    requires i < |s| && j < |s|
    ensures |r| == |s| && multiset(r) == multiset(s)
    ensures r[i] == s[j] && r[j] == s[i]
    ensures forall k :: 0 <= k < |s| && k != i && k != j ==> r[k] == s[k]
  {
    s[i := s[j]][j := s[i]]
  }

  /** The draws `random.shuffle` makes on a list of length `len`: for each
      position i from the last down to 1, an index in 0..i. */
  ghost predicate ShuffleDraws(js: seq<nat>, len: nat) {
    |js| == len && forall i :: 0 < i < len ==> js[i] <= i
  }

  /** `random.shuffle` (Fisher-Yates): position i, from the last down to 1,
      is swapped with position `js[i]`. */
  function Shuffle(xs: Chromosome, js: seq<nat>): (r: Chromosome)
    requires ShuffleDraws(js, |xs|)
    ensures |r| == |xs| && multiset(r) == multiset(xs)
  {
    ShuffleBelow(xs, js, |xs|)
  }

  /** The shuffle's swaps at positions k-1 down to 1. */
  function ShuffleBelow(xs: Chromosome, js: seq<nat>, k: nat): (r: Chromosome)
    requires k <= |xs| && ShuffleDraws(js, |xs|)
    ensures |r| == |xs| && multiset(r) == multiset(xs)
    decreases k
  {
    if k <= 1 then xs else ShuffleBelow(Swap(xs, k - 1, js[k - 1]), js, k - 1)
  }

  /** `initialize_population`: population_size shuffles of 1..n-1. */
  function InitializePopulation(n: nat, populationSize: int, shuffles: seq<seq<nat>>): (pop: seq<Chromosome>)
    requires |shuffles| >= Count(populationSize)
    requires forall k :: 0 <= k < Count(populationSize) ==> ShuffleDraws(shuffles[k], |Range(1, n)|)
    ensures |pop| == Count(populationSize)
    ensures forall k :: 0 <= k < |pop| ==> ExactlyOnce(pop[k], n)
  {
    forall c: nat
      ensures multiset(Range(1, n))[c] == if 1 <= c < n then 1 else 0
    {
      RangeCount(1, n, c);
    }
    seq(Count(populationSize), k requires 0 <= k < Count(populationSize) => Shuffle(Range(1, n), shuffles[k]))
  }

  // ----- decoding -----

  /** The state of `decode_chromosome`'s loop: the routes closed so far, the
      open route and the capacity left in the vehicle serving it. */
  datatype Split = Split(routes: Solution, route: Route, left: int)

  /** One step of the loop: a customer whose demand exceeds what is left
      closes the open route (when it is not empty) and opens a new one. */
  function Place(p: Problem, st: Split, customer: nat): Split
    requires customer < |p.customers|
  {
    var demand := p.customers[customer].demand;
    if demand > st.left then
      Split(if |st.route| > 0 then st.routes + [st.route] else st.routes, [customer], p.capacity - demand)
    else
      Split(st.routes, st.route + [customer], st.left - demand)
  }

  /** The loop state after the first k genes. */
  function SplitFirst(p: Problem, c: Chromosome, k: nat): Split
    requires InRange(c, |p.customers|) && k <= |c|
  {
    if k == 0 then Split([], [], p.capacity) else Place(p, SplitFirst(p, c, k - 1), c[k - 1])
  }

  /** A route that is full before `next`: adding it would exceed the capacity. */
  ghost predicate Full(p: Problem, route: Route, next: nat)
    requires InRange(route, |p.customers|) && next < |p.customers|
  {
    RouteDemand(p, route) + p.customers[next].demand > p.capacity
  }

  /** What the loop keeps: the routes are within range and not empty, each
      fits the vehicle unless it holds one customer, each closed route was
      full before the first customer of the next, and `left` is the
      capacity minus the open route's demand. */
  ghost predicate Splitting(p: Problem, st: Split) {
    && AllInRange(st.routes, |p.customers|) && InRange(st.route, |p.customers|)
    && NonEmptyRoutes(st.routes)
    && (|st.route| == 0 ==> |st.routes| == 0)
    && RouteDemand(p, st.route) + st.left == p.capacity
    && (forall r :: 0 <= r < |st.routes| ==> |st.routes[r]| == 1 || RouteDemand(p, st.routes[r]) <= p.capacity)
    && (|st.route| <= 1 || RouteDemand(p, st.route) <= p.capacity)
    && (forall r :: 0 <= r < |st.routes| - 1 ==> Full(p, st.routes[r], st.routes[r + 1][0]))
    && (|st.routes| > 0 && |st.route| > 0 ==> Full(p, st.routes[|st.routes| - 1], st.route[0]))
  }

  /** A customer alone on a route demands what that customer demands. */
  lemma RouteDemandSingle(p: Problem, customer: nat)
    requires customer < |p.customers|
    ensures InRange([customer], |p.customers|) && RouteDemand(p, [customer]) == p.customers[customer].demand
  {
    assert [customer][..0] == [];
  }

  /** The open route is closed and the customer opens the next one. */
  lemma PlaceClosing(p: Problem, st: Split, customer: nat)
    requires customer < |p.customers| && Splitting(p, st)
    requires p.customers[customer].demand > st.left && |st.route| > 0
    ensures Splitting(p, Split(st.routes + [st.route], [customer], p.capacity - p.customers[customer].demand))
    ensures Flatten(st.routes + [st.route]) + [customer] == Flatten(st.routes) + st.route + [customer]
  {
    RouteDemandSingle(p, customer);
    FlattenSnoc(st.routes, st.route);
    var routes := st.routes + [st.route];
    assert Full(p, st.route, customer);
    forall r | 0 <= r < |routes| - 1
      ensures Full(p, routes[r], routes[r + 1][0])
    {
      if r < |st.routes| - 1 {
        assert routes[r] == st.routes[r] && routes[r + 1] == st.routes[r + 1];
      }
    }
  }

  /** The first customer opens the first route. */
  lemma PlaceOpening(p: Problem, st: Split, customer: nat)
    requires customer < |p.customers| && Splitting(p, st) && |st.route| == 0
    ensures Splitting(p, Split(st.routes, [customer], p.capacity - p.customers[customer].demand))
  {
    RouteDemandSingle(p, customer);
  }

  /** The customer fits and joins the open route. */
  lemma PlaceJoining(p: Problem, st: Split, customer: nat)
    requires customer < |p.customers| && Splitting(p, st)
    requires p.customers[customer].demand <= st.left
    ensures Splitting(p, Split(st.routes, st.route + [customer], st.left - p.customers[customer].demand))
  {
    RouteDemandSingle(p, customer);
    RouteDemandConcat(p, st.route, [customer]);
    if |st.route| > 0 {
      assert (st.route + [customer])[0] == st.route[0];
    }
  }

  lemma PlaceKeeps(p: Problem, st: Split, customer: nat)
    requires customer < |p.customers| && Splitting(p, st)
    ensures Splitting(p, Place(p, st, customer))
    ensures Flatten(Place(p, st, customer).routes) + Place(p, st, customer).route == Flatten(st.routes) + st.route + [customer]
  {
    if p.customers[customer].demand > st.left {
      if |st.route| > 0 {
        PlaceClosing(p, st, customer);
      } else {
        PlaceOpening(p, st, customer);
      }
    } else {
      PlaceJoining(p, st, customer);
    }
  }

  lemma {:induction false} SplitFirstKeeps(p: Problem, c: Chromosome, k: nat)
    requires InRange(c, |p.customers|) && k <= |c|
    ensures Splitting(p, SplitFirst(p, c, k))
    ensures Flatten(SplitFirst(p, c, k).routes) + SplitFirst(p, c, k).route == c[..k]
  {
    if k > 0 {
      var prev := SplitFirst(p, c, k - 1);
      SplitFirstKeeps(p, c, k - 1);
      PlaceKeeps(p, prev, c[k - 1]);
      assert SplitFirst(p, c, k) == Place(p, prev, c[k - 1]);
      TakeSnoc(c, k);
    }
  }

  /** The routes once the open one, if not empty, has been closed. */
  function Close(st: Split): Solution {
    if |st.route| > 0 then st.routes + [st.route] else st.routes
  }

  /** Closing the open route keeps what the loop kept. */
  lemma CloseKeeps(p: Problem, st: Split)
    requires Splitting(p, st)
    ensures Flatten(Close(st)) == Flatten(st.routes) + st.route
    ensures AllInRange(Close(st), |p.customers|) && NonEmptyRoutes(Close(st))
    ensures forall r :: 0 <= r < |Close(st)| ==> |Close(st)[r]| == 1 || RouteDemand(p, Close(st)[r]) <= p.capacity
    ensures forall r :: 0 <= r < |Close(st)| - 1 ==> Full(p, Close(st)[r], Close(st)[r + 1][0])
  {
    if |st.route| > 0 {
      FlattenSnoc(st.routes, st.route);
    } else {
      assert st.routes == [];
    }
  }

  /** `decode_chromosome`: the genes in order, a new route whenever the next
      customer's demand exceeds what is left of the capacity. The routes
      concatenate back to the chromosome, none is empty, each fits the
      vehicle unless it serves a single customer, and each route ends only
      because its successor's first customer would not fit. */
  function Decode(p: Problem, c: Chromosome): (s: Solution)
    requires InRange(c, |p.customers|)
    ensures Flatten(s) == c
    ensures AllInRange(s, |p.customers|) && NonEmptyRoutes(s)
    ensures forall r :: 0 <= r < |s| ==> |s[r]| == 1 || RouteDemand(p, s[r]) <= p.capacity
    ensures forall r :: 0 <= r < |s| - 1 ==> Full(p, s[r], s[r + 1][0])
  {
    var st := SplitFirst(p, c, |c|);
    SplitFirstKeeps(p, c, |c|);
    CloseKeeps(p, st);
    assert c[..|c|] == c;
    Close(st)
  }

  /** With every demand within the capacity the decoded routes of a proper
      chromosome form a valid solution. */
  lemma DecodeValid(p: Problem, c: Chromosome)
    requires ExactlyOnce(c, |p.customers|) && AllDemandsFit(p)
    ensures InRange(c, |p.customers|)
    ensures ValidSolution(p, Decode(p, c))
  {
    ExactlyOnceInRange(c, |p.customers|);
    var s := Decode(p, c);
    forall r | 0 <= r < |s| && |s[r]| == 1
      ensures RouteDemand(p, s[r]) <= p.capacity
    {
      FlattenMember(s, r, 0);
      assert s[r] == [s[r][0]] && [s[r][0]][..0] == [];
    }
  }

  /** Demands that are never negative add up to at least any one of them. */
  lemma {:induction false} RouteDemandAtLeast(p: Problem, route: Route, i: nat)
    requires InRange(route, |p.customers|) && i < |route|
    requires forall c :: 0 <= c < |p.customers| ==> p.customers[c].demand >= 0
    ensures RouteDemand(p, route) >= p.customers[route[i]].demand
    decreases |route|
  {
    var last := |route| - 1;
    if i < last {
      RouteDemandAtLeast(p, route[..last], i);
    }
  }

  /** With demands never negative, a customer whose demand exceeds the
      capacity is decoded into a route of its own. */
  lemma DecodeIsolates(p: Problem, c: Chromosome, r: nat, i: nat)
    requires InRange(c, |p.customers|)
    requires forall x :: 0 <= x < |p.customers| ==> p.customers[x].demand >= 0
    requires r < |Decode(p, c)| && i < |Decode(p, c)[r]|
    requires p.customers[Decode(p, c)[r][i]].demand > p.capacity
    ensures Decode(p, c)[r] == [Decode(p, c)[r][i]]
  {
    var s := Decode(p, c);
    RouteDemandAtLeast(p, s[r], i);
  }

  /** `evaluate_fitness`: the cost of the decoded routes. With a
      non-negative matrix no chromosome has a negative fitness. */
  function Fitness(p: Problem, c: Chromosome): (f: real)
    requires Ready(p) && InRange(c, |p.customers|)
    ensures NonNegative(p.distances) ==> f >= 0.0
  {
    SolutionCost(p, Decode(p, c))
  }

  // ----- selection -----

  /** `np.argmin`: the position of the first smallest value. */
  function ArgMin(xs: seq<real>): (i: nat)
    requires |xs| > 0
    ensures i < |xs|
    ensures forall k :: 0 <= k < |xs| ==> xs[i] <= xs[k]
    ensures forall k :: 0 <= k < i ==> xs[k] > xs[i]
  {
    ArgMinFirst(xs, |xs|)
  }

  /** The first smallest among the first k values. */
  function ArgMinFirst(xs: seq<real>, k: nat): (i: nat)
    requires 0 < k <= |xs|
    ensures i < k
    ensures forall x :: 0 <= x < k ==> xs[i] <= xs[x]
    ensures forall x :: 0 <= x < i ==> xs[x] > xs[i]
  {
    if k == 1 then 0
    else
      var m := ArgMinFirst(xs, k - 1);
      if xs[k - 1] < xs[m] then k - 1 else m
  }

  /** What `random.sample(range(size), 3)` returns: three distinct indices. */
  ghost predicate Sample(picks: seq<nat>, size: nat) {
    && |picks| == 3
    && (forall t :: 0 <= t < 3 ==> picks[t] < size)
    && picks[0] != picks[1] && picks[0] != picks[2] && picks[1] != picks[2]
  }

  /** `selection`: a tournament of three; the first sampled individual of
      lowest fitness wins and a copy of it is returned. */
  function Selection(pop: seq<Chromosome>, fitness: seq<real>, picks: seq<nat>): (winner: Chromosome)
    requires |fitness| == |pop| && Sample(picks, |pop|)
    ensures exists t :: 0 <= t < 3 && winner == pop[picks[t]]
                        && (forall u :: 0 <= u < 3 ==> fitness[picks[t]] <= fitness[picks[u]])
                        && (forall u :: 0 <= u < t ==> fitness[picks[u]] > fitness[picks[t]])
  {
    var scores := [fitness[picks[0]], fitness[picks[1]], fitness[picks[2]]];
    var t := ArgMin(scores);
    assert forall u :: 0 <= u < 3 ==> scores[u] == fitness[picks[u]];
    pop[picks[t]]
  }

  // ----- ordered crossover -----

  /** Two chromosomes holding the same genes, none of them twice. */
  ghost predicate SameGenes(a: Chromosome, b: Chromosome) {
    multiset(a) == multiset(b) && Distinct(a)
  }

  /** The points `random.randint` picks: 0 <= a <= size-2, a+1 <= b <= size-1. */
  ghost predicate Points(a: nat, b: nat, size: nat) {
    a < b < size
  }

  /** The genes of `donor` that are not in keeper's segment a..b, in donor's order. */
  function Leftover(keeper: Chromosome, donor: Chromosome, a: nat, b: nat): Chromosome
    requires Points(a, b, |keeper|)
  {
    Kept(donor, keeper[a..b + 1], |donor|)
  }

  /** Between them, the segment and the leftover hold each gene once. */
  lemma LeftoverCount(keeper: Chromosome, donor: Chromosome, a: nat, b: nat)
    requires SameGenes(keeper, donor) && Points(a, b, |keeper|)
    ensures multiset(keeper[a..b + 1]) + multiset(Leftover(keeper, donor, a, b)) == multiset(keeper)
    ensures |Leftover(keeper, donor, a, b)| == |keeper| - (b + 1 - a)
  {
    var seg := keeper[a..b + 1];
    var rest := Leftover(keeper, donor, a, b);
    assert keeper == keeper[..a] + seg + keeper[b + 1..];
    assert multiset(keeper) == multiset(keeper[..a]) + multiset(seg) + multiset(keeper[b + 1..]);
    assert donor[..|donor|] == donor;
    forall v
      ensures multiset(seg)[v] + multiset(rest)[v] == multiset(keeper)[v]
    {
      if v in seg {
        KeptOmits(donor, seg, |donor|, v);
        assert v in keeper;
      } else {
        KeptCount(donor, seg, |donor|, v);
      }
    }
    assert multiset(seg) + multiset(rest) == multiset(keeper);
    assert |multiset(seg)| + |multiset(rest)| == |multiset(keeper)|;
  }

  /** Ordered crossover as a definition: the child keeps the keeper's
      segment a..b and fills the other positions, left to right, with the
      donor's remaining genes in the donor's order. */
  function Ox(keeper: Chromosome, donor: Chromosome, a: nat, b: nat): (child: Chromosome)
    requires SameGenes(keeper, donor) && Points(a, b, |keeper|)
    ensures |child| == |keeper|
    ensures child[a..b + 1] == keeper[a..b + 1]
    ensures child[..a] + child[b + 1..] == Leftover(keeper, donor, a, b)
    ensures multiset(child) == multiset(keeper)
  {
    var rest := Leftover(keeper, donor, a, b);
    LeftoverCount(keeper, donor, a, b);
    var child := rest[..a] + keeper[a..b + 1] + rest[a..];
    assert child[..a] == rest[..a] && child[b + 1..] == rest[a..];
    assert rest == rest[..a] + rest[a..];
    assert multiset(child) == multiset(rest[..a]) + multiset(keeper[a..b + 1]) + multiset(rest[a..]);
    child
  }

  /** Crossover keeps proper chromosomes proper. */
  lemma OxExactlyOnce(keeper: Chromosome, donor: Chromosome, a: nat, b: nat, n: nat)
    requires ExactlyOnce(keeper, n) && ExactlyOnce(donor, n) && Points(a, b, |keeper|)
    ensures SameGenes(keeper, donor) && ExactlyOnce(Ox(keeper, donor, a, b), n)
  {
    assert multiset(keeper) == multiset(donor);
  }

  /** How many of the positions below i lie outside the segment a..b; for a
      position outside the segment, its place in the leftover. */
  function Holes(i: nat, a: nat, b: nat): nat
    requires a <= b
  {
    if i <= a then i else if i <= b + 1 then a else i - (b + 1 - a)
  }

  /** The child while `fill_ox` runs: the segment in place, the positions
      outside it below i filled from the leftover, the others still -1. */
  ghost function Partial(keeper: Chromosome, rest: Chromosome, a: nat, b: nat, i: nat): (c: seq<int>)
    requires Points(a, b, |keeper|) && |rest| == |keeper| - (b + 1 - a)
    ensures |c| == |keeper|
  {
    seq(|keeper|, k requires 0 <= k < |keeper| =>
      if a <= k <= b then keeper[k] as int else if k < i then rest[Holes(k, a, b)] as int else -1)
  }

  /** A gene in the partial child is in the segment or already taken from the leftover. */
  lemma InPartial(keeper: Chromosome, rest: Chromosome, a: nat, b: nat, i: nat, v: nat)
    requires Points(a, b, |keeper|) && |rest| == |keeper| - (b + 1 - a) && i <= |keeper|
    requires v as int in Partial(keeper, rest, a, b, i)
    ensures v in keeper[a..b + 1] || v in rest[..Holes(i, a, b)]
  {
    var c := Partial(keeper, rest, a, b, i);
    var k :| 0 <= k < |c| && c[k] == v as int;
    if a <= k <= b {
      assert keeper[a..b + 1][k - a] == v;
    } else {
      assert rest[..Holes(i, a, b)][Holes(k, a, b)] == v;
    }
  }

  /** Filling free position i with the next leftover gene. */
  lemma PartialStep(keeper: Chromosome, rest: Chromosome, a: nat, b: nat, i: nat)
    requires Points(a, b, |keeper|) && |rest| == |keeper| - (b + 1 - a) && i < |keeper|
    ensures !(a <= i <= b) ==>
              && Holes(i, a, b) < |rest|
              && Partial(keeper, rest, a, b, i)[i := rest[Holes(i, a, b)] as int] == Partial(keeper, rest, a, b, i + 1)
              && Holes(i + 1, a, b) == Holes(i, a, b) + 1
    ensures a <= i <= b ==>
              && Partial(keeper, rest, a, b, i) == Partial(keeper, rest, a, b, i + 1)
              && Holes(i + 1, a, b) == Holes(i, a, b)
  {
  }

  /** Before the first position, the partial child is the segment in a row of -1. */
  lemma PartialStart(keeper: Chromosome, parent: Chromosome, a: nat, b: nat, child: seq<int>)
    requires SameGenes(keeper, parent) && Points(a, b, |keeper|) && |child| == |keeper|
    requires forall k :: 0 <= k < |child| ==> child[k] == if a <= k <= b then keeper[k] as int else -1
    ensures |parent| == |keeper| && |Leftover(keeper, parent, a, b)| == |keeper| - (b + 1 - a)
    ensures child == Partial(keeper, Leftover(keeper, parent, a, b), a, b, 0)
  {
    assert |multiset(parent)| == |multiset(keeper)|;
    LeftoverCount(keeper, parent, a, b);
  }

  /** Once every position is done, the partial child is the crossover child. */
  lemma PartialDone(keeper: Chromosome, donor: Chromosome, a: nat, b: nat)
    requires SameGenes(keeper, donor) && Points(a, b, |keeper|)
    ensures |Leftover(keeper, donor, a, b)| == |keeper| - (b + 1 - a)
    ensures Partial(keeper, Leftover(keeper, donor, a, b), a, b, |keeper|) == Ox(keeper, donor, a, b)
  {
    LeftoverCount(keeper, donor, a, b);
    var rest := Leftover(keeper, donor, a, b);
    var c, o := Partial(keeper, rest, a, b, |keeper|), Ox(keeper, donor, a, b);
    assert o == rest[..a] + keeper[a..b + 1] + rest[a..];
    forall k | 0 <= k < |keeper|
      ensures c[k] == o[k] as int
    {
      if k < a {
        assert o[k] == rest[k];
      } else if k <= b {
        assert o[k] == keeper[k];
      } else {
        assert o[k] == rest[a..][k - (b + 1)];
      }
    }
  }

  /** What the search for the next gene needs to know of the child: genes
      in it are segment genes or leftover genes already taken, and the
      segment genes are all in it. */
  ghost predicate Holds(filled: seq<int>, seg: Chromosome, taken: Chromosome) {
    && (forall k :: 0 <= k < |filled| && filled[k] >= 0 ==> filled[k] as nat in seg || filled[k] as nat in taken)
    && (forall x :: 0 <= x < |seg| ==> seg[x] as int in filled)
  }

  lemma PartialHolds(keeper: Chromosome, rest: Chromosome, a: nat, b: nat, i: nat)
    requires Points(a, b, |keeper|) && |rest| == |keeper| - (b + 1 - a) && i <= |keeper|
    ensures Holds(Partial(keeper, rest, a, b, i), keeper[a..b + 1], rest[..Holes(i, a, b)])
  {
    var c := Partial(keeper, rest, a, b, i);
    forall k | 0 <= k < |c| && c[k] >= 0
      ensures c[k] as nat in keeper[a..b + 1] || c[k] as nat in rest[..Holes(i, a, b)]
    {
      InPartial(keeper, rest, a, b, i, c[k] as nat);
    }
    var seg := keeper[a..b + 1];
    forall x | 0 <= x < |seg|
      ensures seg[x] as int in c
    {
      assert c[a + x] == seg[x] as int;
    }
  }

  /** The next donor gene outside the segment is the next leftover gene. */
  lemma NextLeftover(keeper: Chromosome, parent: Chromosome, a: nat, b: nat, jj: nat, t: nat)
    requires Points(a, b, |keeper|) && jj < |parent| && t <= |Leftover(keeper, parent, a, b)|
    requires Kept(parent, keeper[a..b + 1], jj) == Leftover(keeper, parent, a, b)[..t]
    requires parent[jj] !in keeper[a..b + 1]
    ensures t < |Leftover(keeper, parent, a, b)| && Leftover(keeper, parent, a, b)[t] == parent[jj]
    ensures Kept(parent, keeper[a..b + 1], jj + 1) == Leftover(keeper, parent, a, b)[..t + 1]
  {
    KeptNext(parent, keeper[a..b + 1], jj, t);
  }

  /** While leftover genes remain to be taken, the donor has not been read to its end. */
  lemma NotExhausted(keeper: Chromosome, parent: Chromosome, a: nat, b: nat, jj: nat, t: nat)
    requires Points(a, b, |keeper|) && jj <= |parent| && t < |Leftover(keeper, parent, a, b)|
    requires Kept(parent, keeper[a..b + 1], jj) == Leftover(keeper, parent, a, b)[..t]
    ensures jj < |parent|
  {
    assert Kept(parent, keeper[a..b + 1], |parent|) == Leftover(keeper, parent, a, b);
  }

  /** A donor gene already in the child lies in the segment, as the leftover
      genes taken so far all come earlier in the donor. */
  lemma SkipKeeps(keeper: Chromosome, parent: Chromosome, a: nat, b: nat, jj: nat, t: nat)
    requires SameGenes(keeper, parent) && Points(a, b, |keeper|) && jj < |parent| && t <= |Leftover(keeper, parent, a, b)|
    requires Kept(parent, keeper[a..b + 1], jj) == Leftover(keeper, parent, a, b)[..t]
    requires parent[jj] in keeper[a..b + 1] || parent[jj] in Leftover(keeper, parent, a, b)[..t]
    ensures Kept(parent, keeper[a..b + 1], jj + 1) == Leftover(keeper, parent, a, b)[..t]
  {
    assert Distinct(parent);
    DistinctNotEarlier(parent, jj);
    if parent[jj] in keeper[a..b + 1] {
      KeptOmits(parent, keeper[a..b + 1], jj, parent[jj]);
    } else {
      KeptCount(parent, keeper[a..b + 1], jj, parent[jj]);
    }
    assert parent[jj] !in Kept(parent, keeper[a..b + 1], jj);
  }

  /** `fill_ox`'s search for the next gene: skips the donor genes already in
      the child and stops at the next leftover gene, before the end of the
      donor while a leftover gene remains to be taken. */
  method NextGene(parent: Chromosome, filled: seq<int>, j: nat, ghost keeper: Chromosome, ghost a: nat, ghost b: nat, ghost t: nat)
    returns (j': nat)
    requires SameGenes(keeper, parent) && Points(a, b, |keeper|)
    requires t < |Leftover(keeper, parent, a, b)|
    requires Holds(filled, keeper[a..b + 1], Leftover(keeper, parent, a, b)[..t])
    requires j <= |parent| && Kept(parent, keeper[a..b + 1], j) == Leftover(keeper, parent, a, b)[..t]
    ensures j' < |parent| && parent[j'] == Leftover(keeper, parent, a, b)[t]
    ensures Kept(parent, keeper[a..b + 1], j' + 1) == Leftover(keeper, parent, a, b)[..t + 1]
  {
    NotExhausted(keeper, parent, a, b, j, t);
    j' := j;
    while parent[j'] in filled
      invariant j' < |parent| && Kept(parent, keeper[a..b + 1], j') == Leftover(keeper, parent, a, b)[..t]
      decreases |parent| - j'
    {
      SkipKeeps(keeper, parent, a, b, j', t);
      NotExhausted(keeper, parent, a, b, j' + 1, t);
      j' := j' + 1;
    }
    NextLeftover(keeper, parent, a, b, j', t);
  }

  /** The position after j in a list of length m, wrapping round. */
  lemma WrapStep(j: nat, m: nat)
    requires j < m
    ensures (j + 1) % m == if j + 1 == m then 0 else j + 1
  {
  }

  /** The state of `fill_ox` before position i: the child is the partial
      child, `jj` counts the donor genes read (j is jj wrapped round) and
      those read hold exactly the leftover genes placed so far. */
  ghost predicate Filling(keeper: Chromosome, parent: Chromosome, a: nat, b: nat,
                          filled: seq<int>, i: nat, j: nat, jj: nat)
  {
    && SameGenes(keeper, parent) && Points(a, b, |keeper|) && |parent| == |keeper| && i <= |keeper|
    && |Leftover(keeper, parent, a, b)| == |keeper| - (b + 1 - a)
    && Holes(i, a, b) <= |Leftover(keeper, parent, a, b)|
    && filled == Partial(keeper, Leftover(keeper, parent, a, b), a, b, i)
    && jj <= |parent| && j == (if jj == |parent| then 0 else jj)
    && Kept(parent, keeper[a..b + 1], jj) == Leftover(keeper, parent, a, b)[..Holes(i, a, b)]
  }

  lemma FillingStart(keeper: Chromosome, parent: Chromosome, a: nat, b: nat, child: seq<int>)
    requires SameGenes(keeper, parent) && Points(a, b, |keeper|) && |child| == |keeper|
    requires forall k :: 0 <= k < |child| ==> child[k] == if a <= k <= b then keeper[k] as int else -1
    ensures Filling(keeper, parent, a, b, child, 0, 0, 0)
  {
    PartialStart(keeper, parent, a, b, child);
  }

  /** A position of the segment is left as it is. */
  lemma FillingSkip(keeper: Chromosome, parent: Chromosome, a: nat, b: nat, filled: seq<int>, i: nat, j: nat, jj: nat)
    requires Filling(keeper, parent, a, b, filled, i, j, jj) && i < |keeper| && a <= i <= b
    ensures Filling(keeper, parent, a, b, filled, i + 1, j, jj)
  {
    PartialStep(keeper, Leftover(keeper, parent, a, b), a, b, i);
  }

  lemma FillingDone(keeper: Chromosome, parent: Chromosome, a: nat, b: nat, filled: seq<int>, j: nat, jj: nat)
    requires Filling(keeper, parent, a, b, filled, |keeper|, j, jj)
    ensures filled == Ox(keeper, parent, a, b)
  {
    PartialDone(keeper, parent, a, b);
  }

  /** One free position of `fill_ox`: the search for the next gene, the
      gene written, and the donor index moved on past it, wrapping round. */
  method FillHole(parent: Chromosome, filled: seq<int>, j: nat, ghost keeper: Chromosome, ghost a: nat, ghost b: nat,
                  i: nat, ghost jj: nat)
    returns (filled': seq<int>, j': nat, ghost jj': nat)
    requires Filling(keeper, parent, a, b, filled, i, j, jj) && i < |keeper| && !(a <= i <= b)
    ensures Filling(keeper, parent, a, b, filled', i + 1, j', jj')
  {
    ghost var rest := Leftover(keeper, parent, a, b);
    ghost var t := Holes(i, a, b);
    PartialStep(keeper, rest, a, b, i);
    NotExhausted(keeper, parent, a, b, jj, t);
    PartialHolds(keeper, rest, a, b, i);
    var next := NextGene(parent, filled, j, keeper, a, b, t);
    WrapStep(next, |parent|);
    filled' := filled[i := parent[next]];
    jj' := next + 1;
    j' := (next + 1) % |parent|;
  }

  /** `fill_ox`: the positions the mask leaves free are filled left to
      right, each with the next gene of `parent` (from index 0, wrapping
      round) that is not yet in the child. Started from the keeper's
      segment, it yields exactly the ordered-crossover child. */
  method FillOx(parent: Chromosome, child: seq<int>, mask: seq<bool>, ghost keeper: Chromosome, ghost a: nat, ghost b: nat)
    returns (filled: seq<int>)
    requires SameGenes(keeper, parent) && Points(a, b, |keeper|)
    requires |child| == |keeper| && |mask| == |keeper|
    requires forall k :: 0 <= k < |mask| ==> mask[k] == (a <= k <= b)
    requires forall k :: 0 <= k < |child| ==> child[k] == if a <= k <= b then keeper[k] as int else -1
    ensures filled == Ox(keeper, parent, a, b)
  {
    FillingStart(keeper, parent, a, b, child);
    var size := |parent|;
    filled := child;
    var j := 0;
    ghost var jj := 0;
    for i := 0 to size
      invariant Filling(keeper, parent, a, b, filled, i, j, jj)
    {
      if !mask[i] {
        filled, j, jj := FillHole(parent, filled, j, keeper, a, b, i, jj);
      } else {
        FillingSkip(keeper, parent, a, b, filled, i, j, jj);
      }
    }
    FillingDone(keeper, parent, a, b, filled, j, jj);
  }

  // ----- crossover and mutation as `run` applies them -----

  /** A chromosome listing each customer 1..n-1 once. */
  ghost predicate Proper(pop: seq<Chromosome>, n: nat) {
    forall i :: 0 <= i < |pop| ==> ExactlyOnce(pop[i], n) && InRange(pop[i], n)
  }

  /** Two proper chromosomes hold the same genes, each once. */
  lemma ProperSameGenes(a: Chromosome, b: Chromosome, n: nat)
    requires ExactlyOnce(a, n) && ExactlyOnce(b, n)
    ensures SameGenes(a, b) && SameGenes(b, a)
  {
    ExactlyOnceIsRange(a, n);
    ExactlyOnceIsRange(b, n);
    forall v | v in b
      ensures multiset(b)[v] == 1
    {
      assert multiset(b)[v] > 0;
    }
    forall v | v in a
      ensures multiset(a)[v] == 1
    {
      assert multiset(a)[v] > 0;
    }
  }

  /** `crossover`: the mask of the segment point1..point2, two children of
      -1 with each parent's segment copied in, and `fill_ox` filling each
      from the other parent. The children are the two ordered-crossover
      children. */
  method Crossover(parent1: Chromosome, parent2: Chromosome, point1: nat, point2: nat)
    returns (child1: seq<int>, child2: seq<int>)
    requires SameGenes(parent1, parent2) && SameGenes(parent2, parent1) && Points(point1, point2, |parent1|)
    ensures child1 == Ox(parent1, parent2, point1, point2)
    ensures child2 == Ox(parent2, parent1, point1, point2)
  {
    var size := |parent1|;
    assert |multiset(parent1)| == |multiset(parent2)|;
    var mask := seq(size, _ => false);
    for i := point1 to point2 + 1
      invariant |mask| == size && forall k :: 0 <= k < size ==> mask[k] == (point1 <= k < i)
    {
      mask := mask[i := true];
    }
    child1 := seq(size, _ => -1);
    child2 := seq(size, _ => -1);
    for i := point1 to point2 + 1
      invariant |child1| == size && forall k :: 0 <= k < size ==> child1[k] == if point1 <= k < i then parent1[k] as int else -1
      invariant |child2| == size && forall k :: 0 <= k < size ==> child2[k] == if point1 <= k < i then parent2[k] as int else -1
    {
      child1 := child1[i := parent1[i]];
      child2 := child2[i := parent2[i]];
    }
    child1 := FillOx(parent2, child1, mask, parent1, point1, point2);
    child2 := FillOx(parent1, child2, mask, parent2, point1, point2);
  }

  /** The draws of one pass of the breeding loop: the indices each
      `selection` samples, the `random.random()` compared with the
      crossover rate and the points `crossover` then picks, and for each
      child the draw compared with the mutation rate and the two positions
      `mutation` then picks. */
  datatype Pairing = Pairing(
    tournament1: seq<nat>, tournament2: seq<nat>,
    crossDraw: real, point1: nat, point2: nat,
    mutateDraw1: real, swap1: (nat, nat),
    mutateDraw2: real, swap2: (nat, nat))

  /** The ranges the library guarantees for the draws of one pass, for a
      population of `popSize` chromosomes of `size` genes. A point or a
      position is only drawn when the rate test lets the operation run. */
  ghost predicate Drawn(g: Pairing, s: Settings, popSize: nat, size: nat) {
    && Sample(g.tournament1, popSize) && Sample(g.tournament2, popSize)
    && (g.crossDraw < s.crossoverRate ==> Points(g.point1, g.point2, size))
    && (g.mutateDraw1 < s.mutationRate ==> g.swap1.0 < size && g.swap1.1 < size)
    && (g.mutateDraw2 < s.mutationRate ==> g.swap2.0 < size && g.swap2.1 < size)
  }

  /** `if random.random() < self.mutation_rate: self.mutation(child)`. */
  function Mutate(c: Chromosome, draw: real, rate: real, swap: (nat, nat)): (r: Chromosome)
    requires draw < rate ==> swap.0 < |c| && swap.1 < |c|
    ensures |r| == |c| && multiset(r) == multiset(c)
  {
    if draw < rate then Swap(c, swap.0, swap.1) else c
  }

  /** A tournament winner is a member of the population, so proper when it is. */
  lemma WinnerProper(pop: seq<Chromosome>, fitness: seq<real>, picks: seq<nat>, n: nat)
    requires |fitness| == |pop| && Proper(pop, n) && Sample(picks, |pop|)
    ensures ExactlyOnce(Selection(pop, fitness, picks), n)
    ensures |Selection(pop, fitness, picks)| == |Range(1, n)|
  {
    var t :| 0 <= t < 3 && Selection(pop, fitness, picks) == pop[picks[t]];
    ExactlyOnceInRange(pop[picks[t]], n);
  }

  /** Crossover, when its draw is below the rate, or a copy of the parents. */
  function Cross(s: Settings, parent1: Chromosome, parent2: Chromosome, n: nat, g: Pairing): (kids: (Chromosome, Chromosome))
    requires ExactlyOnce(parent1, n) && ExactlyOnce(parent2, n) && |parent1| == |Range(1, n)|
    requires g.crossDraw < s.crossoverRate ==> Points(g.point1, g.point2, |Range(1, n)|)
    ensures ExactlyOnce(kids.0, n) && ExactlyOnce(kids.1, n)
  {
    ProperSameGenes(parent1, parent2, n);
    if g.crossDraw < s.crossoverRate then
      OxExactlyOnce(parent1, parent2, g.point1, g.point2, n);
      OxExactlyOnce(parent2, parent1, g.point1, g.point2, n);
      (Ox(parent1, parent2, g.point1, g.point2), Ox(parent2, parent1, g.point1, g.point2))
    else
      (parent1, parent2)
  }

  /** Mutation keeps a proper chromosome proper. */
  lemma MutateProper(c: Chromosome, n: nat, draw: real, rate: real, swap: (nat, nat))
    requires ExactlyOnce(c, n) && (draw < rate ==> swap.0 < |Range(1, n)| && swap.1 < |Range(1, n)|)
    ensures |c| == |Range(1, n)|
    ensures ExactlyOnce(Mutate(c, draw, rate, swap), n) && InRange(Mutate(c, draw, rate, swap), n)
  {
    ExactlyOnceInRange(c, n);
    var r := Mutate(c, draw, rate, swap);
    assert multiset(r) == multiset(c);
    ExactlyOnceInRange(r, n);
  }

  /** One pass of the breeding loop: two tournament winners, crossed over
      when the draw is below the crossover rate (copied otherwise), each
      child then mutated when its draw is below the mutation rate. */
  function Breed(s: Settings, n: nat, pop: seq<Chromosome>, fitness: seq<real>, g: Pairing): (kids: (Chromosome, Chromosome))
    requires |fitness| == |pop| && Proper(pop, n) && Drawn(g, s, |pop|, |Range(1, n)|)
    ensures Proper([kids.0, kids.1], n)
  {
    WinnerProper(pop, fitness, g.tournament1, n);
    WinnerProper(pop, fitness, g.tournament2, n);
    var crossed := Cross(s, Selection(pop, fitness, g.tournament1), Selection(pop, fitness, g.tournament2), n, g);
    MutateProper(crossed.0, n, g.mutateDraw1, s.mutationRate, g.swap1);
    MutateProper(crossed.1, n, g.mutateDraw2, s.mutationRate, g.swap2);
    (Mutate(crossed.0, g.mutateDraw1, s.mutationRate, g.swap1), Mutate(crossed.1, g.mutateDraw2, s.mutationRate, g.swap2))
  }

  // ----- elitist replacement -----

  /** `order` lists each index below `size` once. */
  ghost predicate Permutation(order: seq<nat>, size: nat) {
    forall v: nat :: multiset(order)[v] == if v < size then 1 else 0
  }

  /** `xs` read in the order of `order` never decreases. */
  ghost predicate SortedBy(order: seq<nat>, xs: seq<real>) {
    && (forall k :: 0 <= k < |order| ==> order[k] < |xs|)
    && (forall i, j :: 0 <= i < j < |order| ==> xs[order[i]] <= xs[order[j]])
  }

  /** Index i placed after every index whose value is not above its own. */
  function Insert(sorted: seq<nat>, xs: seq<real>, i: nat): (r: seq<nat>)
    requires i < |xs| && SortedBy(sorted, xs)
    ensures |r| == |sorted| + 1 && multiset(r) == multiset(sorted) + multiset{i}
    ensures SortedBy(r, xs)
    ensures r[0] == i || (|sorted| > 0 && r[0] == sorted[0])
  {
    if |sorted| == 0 then [i]
    else if xs[i] < xs[sorted[0]] then [i] + sorted
    else
      var rest := Insert(sorted[1..], xs, i);
      assert sorted == [sorted[0]] + sorted[1..];
      [sorted[0]] + rest
  }

  /** Adding index k to a permutation of the indices below k. */
  lemma PermutationGrows(prev: seq<nat>, order: seq<nat>, k: nat)
    requires Permutation(prev, k) && multiset(order) == multiset(prev) + multiset{k}
    ensures Permutation(order, k + 1)
  {
    forall v: nat
      ensures multiset(order)[v] == if v < k + 1 then 1 else 0
    {
      assert multiset(order)[v] == multiset(prev)[v] + multiset{k}[v];
    }
  }

  /** The first k indices, sorted by value. */
  function ArgSortFirst(xs: seq<real>, k: nat): (order: seq<nat>)
    requires k <= |xs|
    ensures |order| == k && Permutation(order, k) && SortedBy(order, xs)
  {
    if k == 0 then []
    else
      var prev := ArgSortFirst(xs, k - 1);
      var order := Insert(prev, xs, k - 1);
      PermutationGrows(prev, order, k - 1);
      order
  }

  /** `np.argsort`: the indices of `xs` ordered by their values. */
  function ArgSort(xs: seq<real>): (order: seq<nat>)
    ensures |order| == |xs| && Permutation(order, |xs|) && SortedBy(order, xs)
  {
    ArgSortFirst(xs, |xs|)
  }

  /** The first e indices of a sort order hold the e lowest values: no
      index outside them has a lower value. */
  lemma ElitesLowest(xs: seq<real>, e: nat, x: nat, i: nat)
    requires x < e <= |xs| && i < |xs| && i !in ArgSort(xs)[..e]
    ensures xs[ArgSort(xs)[x]] <= xs[i]
  {
    var order := ArgSort(xs);
    assert multiset(order)[i] == 1;
    var j :| 0 <= j < |order| && order[j] == i;
  }

  /** The pairs of children of the first m passes of the breeding loop. */
  function Broods(s: Settings, n: nat, pop: seq<Chromosome>, fitness: seq<real>, pairings: seq<Pairing>, m: nat)
    : (broods: seq<(Chromosome, Chromosome)>)
    requires |fitness| == |pop| && Proper(pop, n) && m <= |pairings|
    requires forall k :: 0 <= k < |pairings| ==> Drawn(pairings[k], s, |pop|, |Range(1, n)|)
    ensures |broods| == m && forall k :: 0 <= k < m ==> Proper([broods[k].0, broods[k].1], n)
  {
    seq(m, k requires 0 <= k < m => Breed(s, n, pop, fitness, pairings[k]))
  }

  lemma InterleaveProper(broods: seq<(Chromosome, Chromosome)>, n: nat)
    requires forall k :: 0 <= k < |broods| ==> Proper([broods[k].0, broods[k].1], n)
    ensures Proper(Interleave(broods), n)
  {
    var kids := Interleave(broods);
    forall i | 0 <= i < |kids|
      ensures ExactlyOnce(kids[i], n) && InRange(kids[i], n)
    {
      InterleaveAt(broods, i / 2);
      assert Proper([broods[i / 2].0, broods[i / 2].1], n);
    }
  }

  /** The children of the first m passes, in the order they are appended. */
  function Bred(s: Settings, n: nat, pop: seq<Chromosome>, fitness: seq<real>, pairings: seq<Pairing>, m: nat): (kids: seq<Chromosome>)
    requires |fitness| == |pop| && Proper(pop, n) && m <= |pairings|
    requires forall k :: 0 <= k < |pairings| ==> Drawn(pairings[k], s, |pop|, |Range(1, n)|)
    ensures |kids| == 2 * m && Proper(kids, n)
  {
    var broods := Broods(s, n, pop, fitness, pairings, m);
    InterleaveProper(broods, n);
    Interleave(broods)
  }

  /** How many passes the breeding loop makes to grow `e` elites to `size` individuals. */
  function Passes(size: nat, e: nat): nat {
    if e >= size then 0 else (size - e + 1) / 2
  }

  /** The draws the breeding loop of one generation uses. */
  ghost predicate BreedingDraws(s: Settings, n: nat, pairings: seq<Pairing>) {
    && |pairings| >= Passes(Count(s.populationSize), Count(s.elitism))
    && forall k :: 0 <= k < |pairings| ==> Drawn(pairings[k], s, Count(s.populationSize), |Range(1, n)|)
  }

  /** The settings under which a generation runs without raising: a
      population to take the minimum of, and no more elites than individuals. */
  ghost predicate Workable(s: Settings) {
    Count(s.populationSize) > 0 && Count(s.elitism) <= Count(s.populationSize)
  }

  lemma ProperConcat(a: seq<Chromosome>, b: seq<Chromosome>, n: nat)
    requires Proper(a, n) && Proper(b, n)
    ensures Proper(a + b, n)
  {
    forall i | 0 <= i < |a + b|
      ensures ExactlyOnce((a + b)[i], n) && InRange((a + b)[i], n)
    {
      if i >= |a| {
        assert (a + b)[i] == b[i - |a|];
      }
    }
  }

  /** `population[sorted_indices[i]]` for i below e. */
  function Elites(pop: seq<Chromosome>, order: seq<nat>, e: nat): (elites: seq<Chromosome>)
    requires e <= |order| && forall k :: 0 <= k < |order| ==> order[k] < |pop|
    ensures |elites| == e
  {
    seq(e, x requires 0 <= x < e => pop[order[x]])
  }

  lemma ElitesProper(pop: seq<Chromosome>, order: seq<nat>, e: nat, n: nat)
    requires e <= |order| && (forall k :: 0 <= k < |order| ==> order[k] < |pop|) && Proper(pop, n)
    ensures Proper(Elites(pop, order, e), n)
  {
  }

  /** The population the next generation starts from: the `elitism`
      individuals of lowest fitness, in order of fitness, then the children
      of the breeding loop, the last one left out when it would overfill. */
  function NextPopulation(s: Settings, n: nat, pop: seq<Chromosome>, fitness: seq<real>, pairings: seq<Pairing>): (next: seq<Chromosome>)
    requires |fitness| == |pop| && Proper(pop, n) && |pop| == Count(s.populationSize) && Workable(s)
    requires BreedingDraws(s, n, pairings)
    ensures |next| == |pop| && Proper(next, n)
    ensures forall x :: 0 <= x < Count(s.elitism) ==> next[x] == pop[ArgSort(fitness)[x]]
  {
    var order := ArgSort(fitness);
    var e := Count(s.elitism);
    var kids := Bred(s, n, pop, fitness, pairings, Passes(|pop|, e));
    var elites := Elites(pop, order, e);
    ElitesProper(pop, order, e, n);
    ProperConcat(elites, kids[..|pop| - e], n);
    elites + kids[..|pop| - e]
  }

  /** The breeding loop after m passes: the elites, then the children bred so far. */
  ghost predicate Breeding(s: Settings, n: nat, pop: seq<Chromosome>, fitness: seq<real>, pairings: seq<Pairing>,
                           elites: seq<Chromosome>, next: seq<Chromosome>, m: nat)
    requires |fitness| == |pop| && Proper(pop, n) && |pop| == Count(s.populationSize) && Workable(s)
    requires BreedingDraws(s, n, pairings)
  {
    && |elites| == Count(s.elitism)
    && m <= Passes(|pop|, |elites|)
    && |next| == (if |elites| + 2 * m <= |pop| then |elites| + 2 * m else |pop|)
    && next == elites + Bred(s, n, pop, fitness, pairings, Passes(|pop|, |elites|))[..|next| - |elites|]
  }

  /** One pass of the breeding loop: child1 is appended, and child2 when there is still room. */
  method BreedPass(s: Settings, n: nat, pop: seq<Chromosome>, fitness: seq<real>, pairings: seq<Pairing>,
                   ghost elites: seq<Chromosome>, next: seq<Chromosome>, m: nat)
    returns (next': seq<Chromosome>)
    requires |fitness| == |pop| && Proper(pop, n) && |pop| == Count(s.populationSize) && Workable(s)
    requires BreedingDraws(s, n, pairings)
    requires Breeding(s, n, pop, fitness, pairings, elites, next, m) && |next| < Count(s.populationSize)
    ensures Breeding(s, n, pop, fitness, pairings, elites, next', m + 1) && |next'| > |next|
  {
    var kids := Breed(s, n, pop, fitness, pairings[m]);
    ghost var passes := Passes(|pop|, |elites|);
    ghost var all := Bred(s, n, pop, fitness, pairings, passes);
    BreedingOpen(s, n, pop, fitness, pairings, elites, next, m);
    BredAt(s, n, pop, fitness, pairings, passes, m);
    assert next + [kids.0] == elites + all[..2 * m + 1] by {
      PrefixSnoc(elites, all, 2 * m);
    }
    next' := next + [kids.0];
    if |next'| < Count(s.populationSize) {
      assert next' + [kids.1] == elites + all[..2 * m + 2] by {
        PrefixSnoc(elites, all, 2 * m + 1);
      }
      next' := next' + [kids.1];
      BreedingBoth(s, n, pop, fitness, pairings, elites, next', m);
    } else {
      BreedingFull(s, n, pop, fitness, pairings, elites, next', m);
    }
  }

  /** While the population is not full, the pass still has a pairing to use. */
  lemma PassesLeft(size: nat, e: nat, m: nat)
    requires e + 2 * m < size
    ensures m < Passes(size, e)
  {
  }

  /** The pass that fills the population with its first child ends the loop. */
  lemma BreedingFull(s: Settings, n: nat, pop: seq<Chromosome>, fitness: seq<real>, pairings: seq<Pairing>,
                     elites: seq<Chromosome>, next: seq<Chromosome>, m: nat)
    requires |fitness| == |pop| && Proper(pop, n) && |pop| == Count(s.populationSize) && Workable(s)
    requires BreedingDraws(s, n, pairings)
    requires |elites| == Count(s.elitism) && |next| == |pop| == |elites| + 2 * m + 1
    requires next == elites + Bred(s, n, pop, fitness, pairings, Passes(|pop|, |elites|))[..2 * m + 1]
    ensures Breeding(s, n, pop, fitness, pairings, elites, next, m + 1)
  {
    assert Passes(|pop|, |elites|) == m + 1;
  }

  /** A pass that appends both children leaves room or fills the population exactly. */
  lemma BreedingBoth(s: Settings, n: nat, pop: seq<Chromosome>, fitness: seq<real>, pairings: seq<Pairing>,
                     elites: seq<Chromosome>, next: seq<Chromosome>, m: nat)
    requires |fitness| == |pop| && Proper(pop, n) && |pop| == Count(s.populationSize) && Workable(s)
    requires BreedingDraws(s, n, pairings)
    requires |elites| == Count(s.elitism) && |next| == |elites| + 2 * m + 2 <= |pop|
    requires next == elites + Bred(s, n, pop, fitness, pairings, Passes(|pop|, |elites|))[..2 * m + 2]
    ensures Breeding(s, n, pop, fitness, pairings, elites, next, m + 1)
  {
    PassesLeft(|pop|, |elites|, m);
  }

  /** Before a pass there is room for another child, so every earlier
      pass appended both of its children. */
  lemma BreedingOpen(s: Settings, n: nat, pop: seq<Chromosome>, fitness: seq<real>, pairings: seq<Pairing>,
                     elites: seq<Chromosome>, next: seq<Chromosome>, m: nat)
    requires |fitness| == |pop| && Proper(pop, n) && |pop| == Count(s.populationSize) && Workable(s)
    requires BreedingDraws(s, n, pairings)
    requires Breeding(s, n, pop, fitness, pairings, elites, next, m) && |next| < Count(s.populationSize)
    ensures |next| == |elites| + 2 * m && m < Passes(|pop|, |elites|) <= |pairings|
    ensures next == elites + Bred(s, n, pop, fitness, pairings, Passes(|pop|, |elites|))[..2 * m]
  {
    PassesLeft(|pop|, |elites|, m);
  }

  /** Pass m contributes children 2m and 2m + 1 of the interleaved broods. */
  lemma BredAt(s: Settings, n: nat, pop: seq<Chromosome>, fitness: seq<real>, pairings: seq<Pairing>, passes: nat, m: nat)
    requires |fitness| == |pop| && Proper(pop, n) && passes <= |pairings|
    requires forall k :: 0 <= k < |pairings| ==> Drawn(pairings[k], s, |pop|, |Range(1, n)|)
    requires m < passes
    ensures var all, kids := Bred(s, n, pop, fitness, pairings, passes), Breed(s, n, pop, fitness, pairings[m]);
      all[2 * m] == kids.0 && all[2 * m + 1] == kids.1
  {
    InterleaveAt(Broods(s, n, pop, fitness, pairings, passes), m);
  }

  /** The body of `run` that builds `new_population`: the elites taken in
      sort order, then passes of selection, crossover and mutation until
      the population is full. */
  method NewPopulation(s: Settings, n: nat, pop: seq<Chromosome>, fitness: seq<real>, pairings: seq<Pairing>)
    returns (next: seq<Chromosome>)
    requires |fitness| == |pop| && Proper(pop, n) && |pop| == Count(s.populationSize) && Workable(s)
    requires BreedingDraws(s, n, pairings)
    ensures next == NextPopulation(s, n, pop, fitness, pairings)
  {
    var order := ArgSort(fitness);
    var size, e := Count(s.populationSize), Count(s.elitism);
    next := [];
    for i := 0 to e
      invariant next == Elites(pop, order, i)
    {
      next := next + [pop[order[i]]];
    }
    ghost var elites := next;
    var m := 0;
    while |next| < size
      invariant Breeding(s, n, pop, fitness, pairings, elites, next, m)
      decreases size - |next|
    {
      next := BreedPass(s, n, pop, fitness, pairings, elites, next, m);
      m := m + 1;
    }
    assert m == Passes(size, e);
  }

  // ----- the generation loop of `run` -----

  /** `[self.evaluate_fitness(individual) for individual in population]`. */
  function Fitnesses(p: Problem, pop: seq<Chromosome>): (f: seq<real>)
    requires Ready(p) && Proper(pop, |p.customers|)
    ensures |f| == |pop| && forall i :: 0 <= i < |pop| ==> f[i] == Fitness(p, pop[i])
  {
    seq(|pop|, i requires 0 <= i < |pop| => Fitness(p, pop[i]))
  }

  /** The draws `initialize_population` makes. */
  ghost predicate InitialDraws(s: Settings, n: nat, shuffles: seq<seq<nat>>) {
    && |shuffles| >= Count(s.populationSize)
    && forall k :: 0 <= k < Count(s.populationSize) ==> ShuffleDraws(shuffles[k], |Range(1, n)|)
  }

  lemma InitialProper(s: Settings, n: nat, shuffles: seq<seq<nat>>)
    requires InitialDraws(s, n, shuffles)
    ensures Proper(InitializePopulation(n, s.populationSize, shuffles), n)
  {
    var pop := InitializePopulation(n, s.populationSize, shuffles);
    forall i | 0 <= i < |pop|
      ensures InRange(pop[i], n)
    {
      ExactlyOnceInRange(pop[i], n);
    }
  }

  /** Populations of population_size proper chromosomes. */
  ghost predicate Populations(s: Settings, n: nat, pops: seq<seq<Chromosome>>) {
    forall g :: 0 <= g < |pops| ==> |pops[g]| == Count(s.populationSize) && Proper(pops[g], n)
  }

  /** The draws of every generation, and those of the initial population. */
  ghost predicate RunDraws(p: Problem, s: Settings, shuffles: seq<seq<nat>>, pairings: seq<seq<Pairing>>) {
    && Ready(p) && InitialDraws(s, |p.customers|, shuffles)
    && forall g :: 0 <= g < |pairings| ==> BreedingDraws(s, |p.customers|, pairings[g])
  }

  /** The populations of a run, one per generation: the initial population,
      then each built from the one before with that generation's draws. */
  ghost predicate Lineage(p: Problem, s: Settings, shuffles: seq<seq<nat>>, pairings: seq<seq<Pairing>>, pops: seq<seq<Chromosome>>)
    requires RunDraws(p, s, shuffles, pairings)
  {
    && |pops| <= |pairings| + 1
    && (|pops| > 1 ==> Workable(s))
    && Populations(s, |p.customers|, pops)
    && (|pops| > 0 ==> pops[0] == InitializePopulation(|p.customers|, s.populationSize, shuffles))
    && (forall g :: 0 <= g < |pops| - 1 ==>
          pops[g + 1] == NextPopulation(s, |p.customers|, pops[g], Fitnesses(p, pops[g]), pairings[g]))
  }

  /** The lowest fitness over the populations 0..g, met by one of their members. */
  ghost predicate LowestUpTo(p: Problem, s: Settings, pops: seq<seq<Chromosome>>, g: nat, c: Cost)
    requires Ready(p) && Populations(s, |p.customers|, pops) && g < |pops|
  {
    && c.Finite?
    && (forall h, i :: 0 <= h <= g && 0 <= i < |pops[h]| ==> c.value <= Fitness(p, pops[h][i]))
    && (exists h, i :: 0 <= h <= g && 0 <= i < |pops[h]| && c.value == Fitness(p, pops[h][i]))
  }

  /** What `run` records: after each generation the lowest fitness so far;
      the best solution is the decoding of a chromosome of that fitness. */
  ghost predicate Record(p: Problem, s: Settings, pops: seq<seq<Chromosome>>, history: seq<Cost>, best: Option<Solution>, bestCost: Cost)
    requires Ready(p) && Populations(s, |p.customers|, pops)
  {
    && |history| == |pops|
    && (forall g :: 0 <= g < |history| ==> LowestUpTo(p, s, pops, g, history[g]))
    && bestCost == (if |history| == 0 then Infinite else history[|history| - 1])
    && (best.Some? <==> bestCost.Finite?)
    && (best.Some? ==> exists h, i :: 0 <= h < |pops| && 0 <= i < |pops[h]|
                         && best.value == Decode(p, pops[h][i]) && bestCost.value == Fitness(p, pops[h][i]))
  }

  lemma PopulationsSnoc(s: Settings, n: nat, pops: seq<seq<Chromosome>>, pop: seq<Chromosome>)
    ensures Populations(s, n, pops + [pop])
            <==> Populations(s, n, pops) && |pop| == Count(s.populationSize) && Proper(pop, n)
  {
    var all := pops + [pop];
    assert all[|pops|] == pop;
    assert forall g :: 0 <= g < |pops| ==> all[g] == pops[g];
  }

  /** A run's populations up to one generation are those of a run that stops there. */
  lemma LineagePrefix(p: Problem, s: Settings, shuffles: seq<seq<nat>>, pairings: seq<seq<Pairing>>,
                      pops: seq<seq<Chromosome>>, pop: seq<Chromosome>)
    requires RunDraws(p, s, shuffles, pairings) && Lineage(p, s, shuffles, pairings, pops + [pop])
    ensures Lineage(p, s, shuffles, pairings, pops)
  {
    PopulationsSnoc(s, |p.customers|, pops, pop);
    var all := pops + [pop];
    assert forall g :: 0 <= g < |pops| ==> all[g] == pops[g];
  }

  /** The population bred from the last one extends the lineage. */
  lemma LineageStep(p: Problem, s: Settings, shuffles: seq<seq<nat>>, pairings: seq<seq<Pairing>>,
                    pops: seq<seq<Chromosome>>, pop: seq<Chromosome>, next: seq<Chromosome>)
    requires RunDraws(p, s, shuffles, pairings) && Lineage(p, s, shuffles, pairings, pops + [pop])
    requires Workable(s) && |pops| < |pairings|
    requires Populations(s, |p.customers|, pops + [pop]) && |pop| == Count(s.populationSize) && Proper(pop, |p.customers|)
    requires next == NextPopulation(s, |p.customers|, pop, Fitnesses(p, pop), pairings[|pops|])
    ensures Lineage(p, s, shuffles, pairings, pops + [pop] + [next])
  {
    var all, longer := pops + [pop], pops + [pop] + [next];
    var n := |p.customers|;
    PopulationsSnoc(s, n, all, next);
    assert longer[0] == all[0];
    forall g | 0 <= g < |longer| - 1
      ensures longer[g + 1] == NextPopulation(s, n, longer[g], Fitnesses(p, longer[g]), pairings[g])
    {
      if g < |all| - 1 {
        assert longer[g] == all[g] && longer[g + 1] == all[g + 1];
      } else {
        assert longer[g] == pop && longer[g + 1] == next;
      }
    }
  }

  /** A lowest fitness up to g stays one when a population is added after. */
  lemma LowestUpToExtend(p: Problem, s: Settings, pops: seq<seq<Chromosome>>, pop: seq<Chromosome>, g: nat, c: Cost)
    requires Ready(p) && Populations(s, |p.customers|, pops + [pop]) && g < |pops|
    requires Populations(s, |p.customers|, pops) && LowestUpTo(p, s, pops, g, c)
    ensures LowestUpTo(p, s, pops + [pop], g, c)
  {
    var all := pops + [pop];
    assert forall h :: 0 <= h < |pops| ==> all[h] == pops[h];
    var h, i :| 0 <= h <= g && 0 <= i < |pops[h]| && c.value == Fitness(p, pops[h][i]);
    assert all[h][i] == pops[h][i];
  }

  /** The generation's lowest fitness, compared with the best so far, gives
      the lowest fitness up to this generation. */
  lemma LowestStep(p: Problem, s: Settings, pops: seq<seq<Chromosome>>, pop: seq<Chromosome>, bestCost: Cost, bi: nat,
                   newCost: Cost)
    requires Ready(p) && Populations(s, |p.customers|, pops) && Populations(s, |p.customers|, pops + [pop])
    requires Proper(pop, |p.customers|)
    requires bestCost == Infinite <==> |pops| == 0
    requires |pops| > 0 ==> LowestUpTo(p, s, pops, |pops| - 1, bestCost)
    requires bi < |pop| && forall i :: 0 <= i < |pop| ==> Fitness(p, pop[bi]) <= Fitness(p, pop[i])
    requires newCost == if Improves(Fitness(p, pop[bi]), bestCost) then Finite(Fitness(p, pop[bi])) else bestCost
    ensures LowestUpTo(p, s, pops + [pop], |pops|, newCost)
  {
    var all := pops + [pop];
    assert all[|pops|] == pop;
    assert forall h :: 0 <= h < |pops| ==> all[h] == pops[h];
    if newCost != bestCost {
      assert all[|pops|][bi] == pop[bi];
    } else {
      var h, i :| 0 <= h <= |pops| - 1 && 0 <= i < |pops[h]| && bestCost.value == Fitness(p, pops[h][i]);
      assert all[h][i] == pops[h][i];
    }
  }

  /** One generation's bookkeeping keeps the record: the history gains the
      new lowest fitness, and the best moves to this generation's best only
      when that is strictly lower. */
  lemma RecordStep(p: Problem, s: Settings, pops: seq<seq<Chromosome>>, pop: seq<Chromosome>, history: seq<Cost>,
                   best: Option<Solution>, bestCost: Cost, bi: nat, newBest: Option<Solution>, newCost: Cost)
    requires Ready(p) && Populations(s, |p.customers|, pops) && Populations(s, |p.customers|, pops + [pop])
    requires Proper(pop, |p.customers|) && Record(p, s, pops, history, best, bestCost)
    requires bi < |pop| && forall i :: 0 <= i < |pop| ==> Fitness(p, pop[bi]) <= Fitness(p, pop[i])
    requires if Improves(Fitness(p, pop[bi]), bestCost)
             then newBest == Some(Decode(p, pop[bi])) && newCost == Finite(Fitness(p, pop[bi]))
             else newBest == best && newCost == bestCost
    ensures Record(p, s, pops + [pop], history + [newCost], newBest, newCost)
  {
    var all, history' := pops + [pop], history + [newCost];
    LowestStep(p, s, pops, pop, bestCost, bi, newCost);
    forall g | 0 <= g < |history'|
      ensures LowestUpTo(p, s, all, g, history'[g])
    {
      if g < |history| {
        LowestUpToExtend(p, s, pops, pop, g, history[g]);
      }
    }
    BestStep(p, s, pops, pop, best, bestCost, bi, newBest, newCost);
  }

  /** The best after a generation decodes a chromosome of the recorded fitness. */
  lemma BestStep(p: Problem, s: Settings, pops: seq<seq<Chromosome>>, pop: seq<Chromosome>,
                 best: Option<Solution>, bestCost: Cost, bi: nat, newBest: Option<Solution>, newCost: Cost)
    requires Ready(p) && Populations(s, |p.customers|, pops) && Populations(s, |p.customers|, pops + [pop])
    requires Proper(pop, |p.customers|) && bi < |pop| && (best.Some? <==> bestCost.Finite?)
    requires best.Some? ==> exists h, i :: 0 <= h < |pops| && 0 <= i < |pops[h]|
                              && best.value == Decode(p, pops[h][i]) && bestCost.value == Fitness(p, pops[h][i])
    requires if Improves(Fitness(p, pop[bi]), bestCost)
             then newBest == Some(Decode(p, pop[bi])) && newCost == Finite(Fitness(p, pop[bi]))
             else newBest == best && newCost == bestCost
    ensures newBest.Some? ==> exists h, i :: 0 <= h < |pops + [pop]| && 0 <= i < |(pops + [pop])[h]|
                                && newBest.value == Decode(p, (pops + [pop])[h][i]) && newCost.value == Fitness(p, (pops + [pop])[h][i])
  {
    var all := pops + [pop];
    if newBest.Some? {
      if Improves(Fitness(p, pop[bi]), bestCost) {
        assert all[|pops|] == pop;
      } else {
        var h, i :| 0 <= h < |pops| && 0 <= i < |pops[h]|
                    && best.value == Decode(p, pops[h][i]) && bestCost.value == Fitness(p, pops[h][i]);
        assert all[h] == pops[h];
      }
    }
  }

  /** The recorded history never rises. */
  lemma RecordNonIncreasing(p: Problem, s: Settings, pops: seq<seq<Chromosome>>, history: seq<Cost>, best: Option<Solution>, bestCost: Cost)
    requires Ready(p) && Populations(s, |p.customers|, pops) && Record(p, s, pops, history, best, bestCost)
    ensures NonIncreasing(history, AtMost)
  {
    forall i, j | 0 <= i <= j < |history|
      ensures AtMost(history[j], history[i])
    {
      assert LowestUpTo(p, s, pops, i, history[i]) && LowestUpTo(p, s, pops, j, history[j]);
      var h, x :| 0 <= h <= i && 0 <= x < |pops[h]| && history[i].value == Fitness(p, pops[h][x]);
    }
  }

  /** With every demand within the capacity, the recorded best is a valid solution. */
  lemma RecordValid(p: Problem, s: Settings, pops: seq<seq<Chromosome>>, history: seq<Cost>, best: Option<Solution>, bestCost: Cost)
    requires Ready(p) && Populations(s, |p.customers|, pops) && Record(p, s, pops, history, best, bestCost)
    requires AllDemandsFit(p) && best.Some?
    ensures ValidSolution(p, best.value)
  {
    var h, i :| 0 <= h < |pops| && 0 <= i < |pops[h]|
                && best.value == Decode(p, pops[h][i]) && bestCost.value == Fitness(p, pops[h][i]);
    DecodeValid(p, pops[h][i]);
  }

  /** One generation of `run`: the fitness of every individual, the first
      of lowest fitness made the best when strictly below the best so far,
      the history extended, and the next population bred. */
  method Generation(p: Problem, s: Settings, shuffles: seq<seq<nat>>, pairings: seq<seq<Pairing>>,
                    ghost pops: seq<seq<Chromosome>>, pop: seq<Chromosome>, gen: nat,
                    best: Option<Solution>, bestCost: Cost, history: seq<Cost>)
    returns (next: seq<Chromosome>, best': Option<Solution>, bestCost': Cost, history': seq<Cost>)
    requires RunDraws(p, s, shuffles, pairings) && Workable(s) && gen == |pops| < |pairings|
    requires Lineage(p, s, shuffles, pairings, pops + [pop])
    requires Populations(s, |p.customers|, pops) && Record(p, s, pops, history, best, bestCost)
    ensures Lineage(p, s, shuffles, pairings, pops + [pop] + [next])
    ensures Populations(s, |p.customers|, pops + [pop]) && Record(p, s, pops + [pop], history', best', bestCost')
  {
    var n := |p.customers|;
    PopulationsSnoc(s, n, pops, pop);
    var fitness := Fitnesses(p, pop);
    var bi := ArgMin(fitness);
    var current, currentCost := Decode(p, pop[bi]), fitness[bi];
    if Improves(currentCost, bestCost) {
      best', bestCost' := Some(current), Finite(currentCost);
    } else {
      best', bestCost' := best, bestCost;
    }
    history' := history + [bestCost'];
    RecordStep(p, s, pops, pop, history, best, bestCost, bi, best', bestCost');
    next := NewPopulation(s, n, pop, fitness, pairings[gen]);
    LineageStep(p, s, shuffles, pairings, pops, pop, next);
  }

  /** `run`: the initial population, then up to max_generations
      generations, each checking the stop flag first (`stops[g]` is the flag
      as generation g sees it). The populations evaluated, the history of
      lowest fitness and the best are returned; the completion callback,
      when given, receives the final best. */
  method Run(p: Problem, s: Settings, shuffles: seq<seq<nat>>, stops: seq<bool>, pairings: seq<seq<Pairing>>,
             hasCallback: bool)
    returns (best: Option<Solution>, bestCost: Cost, history: seq<Cost>, pops: seq<seq<Chromosome>>,
             completion: Option<(Option<Solution>, Cost)>)
    requires RunDraws(p, s, shuffles, pairings)
    requires |stops| >= Count(s.maxGenerations) && |pairings| >= Count(s.maxGenerations)
    requires Count(s.maxGenerations) > 0 && !stops[0] ==> Workable(s)
    ensures |pops| <= Count(s.maxGenerations)
    ensures forall g :: 0 <= g < |pops| ==> !stops[g]
    ensures |pops| < Count(s.maxGenerations) ==> stops[|pops|]
    ensures Lineage(p, s, shuffles, pairings, pops)
    ensures Populations(s, |p.customers|, pops) && Record(p, s, pops, history, best, bestCost)
    ensures NonIncreasing(history, AtMost)
    ensures best.Some? && AllDemandsFit(p) ==> ValidSolution(p, best.value)
    ensures completion == if hasCallback then Some((best, bestCost)) else None
  {
    var n := |p.customers|;
    best, bestCost, history, pops := None, Infinite, [], [];
    var pop := InitializePopulation(n, s.populationSize, shuffles);
    InitialProper(s, n, shuffles);
    PopulationsSnoc(s, n, [], pop);
    assert [] + [pop] == [pop];
    var gen := 0;
    while gen < Count(s.maxGenerations) && !stops[gen]
      invariant gen <= Count(s.maxGenerations) && |pops| == gen
      invariant forall k :: 0 <= k < gen ==> !stops[k]
      invariant Lineage(p, s, shuffles, pairings, pops + [pop])
      invariant Populations(s, n, pops) && Record(p, s, pops, history, best, bestCost)
    {
      assert !stops[0];
      assert forall k :: 0 <= k < gen + 1 ==> !stops[k];
      var next;
      next, best, bestCost, history := Generation(p, s, shuffles, pairings, pops, pop, gen, best, bestCost, history);
      pops, pop := pops + [pop], next;
      gen := gen + 1;
    }
    LineagePrefix(p, s, shuffles, pairings, pops, pop);
    RecordNonIncreasing(p, s, pops, history, best, bestCost);
    if best.Some? && AllDemandsFit(p) {
      RecordValid(p, s, pops, history, best, bestCost);
    }
    completion := if hasCallback then Some((best, bestCost)) else None;
  }
}
