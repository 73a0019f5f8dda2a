# CVRP simulator core in Dafny

This project models the computational core of a Capacitated Vehicle Routing
Problem (CVRP) simulator and proves properties of that model. The original
is written in Python. The model covers:

- **Cvrp** (`cvrp.dfy`) is the problem object. It holds customers, with the
  depot at index 0, plus the vehicle capacity and the Euclidean distance
  matrix. It also covers:
  - route length, route demand and solution cost;
  - the solution validity check (capacity, each customer exactly once,
    every customer served);
  - the unvisited-customer query;
  - random problem generation, with draws as parameters;
  - the JSON save/load pair, as records.
- **Aco** (`aco.dfy`) is the Ant Colony Optimisation solver. It covers:
  - the pheromone and heuristic matrices;
  - the roulette-wheel choice of the next customer, as NumPy's
    `random.choice` makes it (cumulative sums, then `searchsorted` with one
    uniform draw);
  - capacity-bounded route construction;
  - evaporation and deposit;
  - the best-so-far bookkeeping and the stop flag of the main loop.
- **Genetic** (`genetic.dfy`) is the Genetic Algorithm solver. It covers:
  - the population of customer permutations (Fisher–Yates shuffles);
  - greedy capacity splitting of a chromosome into routes;
  - 3-way tournament selection;
  - ordered crossover (OX), both as a reference definition and as the
    source's `fill_ox` loop;
  - swap mutation;
  - elitism through an argsort;
  - the generation loop.
- **CvrpLib** (`cvrplib.dfy`) is the CVRPLIB `.vrp` to JSON converter. It
  covers:
  - the line-by-line section parser;
  - the default depot;
  - the batch file naming.
- **ParamConfig** (`paramconfig.dfy`) is the pure part of the parameter
  tester. It covers:
  - the range checks that repair a configuration before a run, with the
    exception fallback to the unmodified copy;
  - the ACO and GA grid builders (comma-separated value lists, nested loops,
    GA tournament and elitism adjustments);
  - the one-line configuration summary.
- **Text** and **SeqUtil** (`text.dfy`, `seq_util.dfy`) hold shared helpers:
  - the string operations the source uses (`strip`, `split(',')`,
    `split()`, `lower()`, `int()`);
  - sequence sums and ranges.

Floating-point arithmetic is modelled as exact `real` arithmetic. Python
dictionaries are insertion-ordered association lists. A Python value that
can be a number, a bool or a string is the datatype
`ParamConfig.Value = Int | Float | Bool | Str`. The exceptions the model
covers are the parameter-repair comparisons that raise on text (the `None`
of `ParamConfig.FixAco`, `ParamConfig.FixGa` and `ParamConfig.FixConfig`)
and the CVRPLIB and grid parsers that fail on malformed input (a `None`
result). Most inputs on which a solver would raise or never finish are
excluded by preconditions instead. The exception is the ACO step callback
with no ants, which the model runs without the callback. Each case is listed
under "Left out".

Randomness is an explicit parameter in the model:

- **ACO**: one uniform draw per step of each ant.
- **GA**: shuffle indices, tournament samples, crossover points, mutation
  draws and swap positions.
- **Problem generation**: coordinates and demands.

Each parameter carries the range constraints the Python library
guarantees. `math.sqrt`, the `**` power in the ACO weights, `float()` and
`repr` of floats are also parameters. `int()` on strings is modelled
exactly, including surrounding whitespace, a sign and `_` digit grouping.

Two behaviours of the source are kept as written:

- The completion callback of both solvers fires even when the run was
  stopped early (`core/aco.py:120-121`, `core/genetic.py:139-140`).
- A failed `load_from_file` leaves the problem partly overwritten. The
  capacity is already replaced and the customer list cleared or partly
  refilled (`core/cvrp.py:68-81`).

## Model

| member | source | states |
|---|---|---|
| Cvrp.AddDepot | core/cvrp.py:30-33 | the depot is a zero-demand customer with id 0 appended to the list and remembered as the depot; capacity and matrix unchanged |
| Cvrp.AddCustomer | core/cvrp.py:35-38 | the customer is appended at the end; nothing else changes |
| Cvrp.Distances | core/cvrp.py:109-119 | the matrix is n×n, symmetric, zero on the diagonal, and off the diagonal holds the root of the squared Euclidean distance; it is non-negative whenever the root is |
| Cvrp.CalculateDistances | core/cvrp.py:109-119 | after computing distances the problem is ready (square matrix over all customers); each off-diagonal entry is the Euclidean distance between the two customers, the matrix is symmetric with a zero diagonal, and customers, capacity and depot are untouched |
| Cvrp.RouteDistance | core/cvrp.py:121-136 | the loop's total equals depot → each stop in order → depot, and an empty route costs 0 |
| Cvrp.RouteLength | core/cvrp.py:121-136 | with a non-negative matrix no route has a negative length |
| Cvrp.RouteDemand | core/cvrp.py:138-140 | the empty route carries nothing, a one-stop route carries that customer's demand, and with non-negative demands no route carries a negative total |
| Cvrp.RouteDemandConcat | core/cvrp.py:138-140 | the demand of two joined routes is the sum of their demands |
| Cvrp.RouteDemandPermutation | core/cvrp.py:138-140 | route demand does not depend on the order of visits |
| Cvrp.SolutionCostConcat | core/cvrp.py:142-145 | solution cost is additive over concatenated route lists |
| Cvrp.SolutionCost | core/cvrp.py:142-145 | no routes cost 0, a single route costs its route length, and with a non-negative matrix every solution costs at least 0 |
| Cvrp.FitsCapacity | core/cvrp.py:149-152 | the capacity loop succeeds exactly when every route's demand is within capacity |
| Cvrp.CollectVisited | core/cvrp.py:155-160 | a repeated customer makes the solution invalid for every problem size; otherwise the set holds exactly the visited customers |
| Cvrp.TallyCoverage | core/cvrp.py:162-165 | for duplicate-free visits, the visited set equals {1..n-1} exactly when every customer appears exactly once |
| Cvrp.ExactlyOnceIsRange | core/cvrp.py:155-165 | "each customer exactly once" is the same as the visit sequence being a permutation of 1..n-1 |
| Cvrp.IsSolutionValid | core/cvrp.py:147-167 | the check answers true exactly when every route fits the capacity and the flattened routes visit customers 1..n-1 each exactly once |
| Cvrp.GetUnvisitedCustomers | core/cvrp.py:169-172 | the result holds exactly the customers 1..n-1 not in the visited list, each once |
| Cvrp.LoadProblem | core/cvrp.py:40-60 | a generated problem has the given capacity and the depot at the origin as customer 0; customer i (1..n) is exactly `Customer(i, x, y, demand)` built from the i-th coordinate and demand draws, so coordinates lie in [-100, 100] and demands in [10, 40]; the matrix is ready and holds the Euclidean distances between these customers |
| Cvrp.SaveToFile | core/cvrp.py:83-107 | saving fails exactly when there is no depot; otherwise the record has the capacity, the depot's coordinates and every customer after index 0 in order |
| Cvrp.LoadCustomers | core/cvrp.py:74-75 | loading succeeds exactly when every customer record is complete; the customers read before the first incomplete record are appended in order, even on failure, after the existing ones |
| Cvrp.LoadFromFile | core/cvrp.py:62-81 | an unreadable file or one without a capacity changes nothing; otherwise the capacity is the file's; without a depot the customer list is left empty and the old depot kept; with one, the customers are the depot (id 0, demand 0, at the file's coordinates) followed by the customers read before the first incomplete record; loading succeeds exactly when capacity, depot and every customer record are present, and then the matrix is ready; a failure keeps the old matrix |
| Cvrp.SaveLoadRoundTrip | core/cvrp.py:62-107 | loading a saved problem restores capacity, a depot rebuilt from its coordinates, and the saved customers in order |
| Cvrp.SaveLoadIdentity | core/cvrp.py:62-107 | for a problem whose customer 0 is its depot, save then load gives back the same problem with distances recomputed |
| Aco.Heuristic | core/aco.py:42-46 | the heuristic is the reciprocal of each positive off-diagonal distance and 0 elsewhere; it is symmetric when the distances are |
| Aco.NewColony | core/aco.py:14-60 | a new colony has all-ones symmetric pheromone, a non-negative heuristic and the given parameters |
| Aco.Normalize | core/aco.py:186-189 | the probabilities sum to 1 and are proportional to the weights, or uniform when the weights sum to 0 |
| Aco.ChoiceIndex | core/aco.py:192-193 | the chosen index is the one whose cumulative-probability interval contains the draw, and it never has weight 0 when some weight is positive |
| Aco.SelectNextNode | core/aco.py:163-193 | there is no next node exactly when there are no candidates; otherwise the result is a candidate |
| Aco.CandidatesExact | core/aco.py:141-144 | a customer is a candidate exactly when it is still unvisited and its demand fits the remaining capacity |
| Aco.ExtendRouteTakes | core/aco.py:141-156 | route building only moves customers from "remaining" to the route, never losing or duplicating one |
| Aco.ExtendRouteCapacity | core/aco.py:141-156 | a route never exceeds the vehicle capacity |
| Aco.ExtendRouteMaximal | core/aco.py:146-147 | a route closes only when no remaining customer fits |
| Aco.DispatchCovers | core/aco.py:134-159 | the vehicles together visit every customer exactly once, with no empty route |
| Aco.DispatchFits | core/aco.py:134-159 | every vehicle route is within capacity |
| Aco.ConstructSolution | core/aco.py:123-161 | when every single demand fits a vehicle, an ant's solution is valid and has no empty route |
| Aco.Evaporate | core/aco.py:204 | every pheromone entry is scaled by (1 - rho) |
| Aco.UpdatePheromone | core/aco.py:195-220 | the updated pheromone is a square matrix over the same nodes |
| Aco.UpdatePheromoneClosedForm | core/aco.py:195-220 | after the update each entry is the evaporated value plus Q/cost for each traversal of that edge, in either direction, by each ant |
| Aco.UpdateKeepsSymmetry | core/aco.py:195-220 | the update keeps the pheromone matrix symmetric |
| Aco.UpdateKeepsNonNegative | core/aco.py:195-220 | with 0 ≤ rho ≤ 1 and Q ≥ 0 the pheromone stays non-negative |
| Aco.BuildAnts | core/aco.py:83-93 | one valid solution per ant, each with its true cost |
| Aco.UpdateBest | core/aco.py:88-93 | the best cost never rises and ends at most every ant's cost; the best changes only on a strict improvement |
| Aco.BestOfStep | core/aco.py:88-99 | after an iteration the recorded cost is the lowest cost seen in all iterations so far |
| Aco.Run | core/aco.py:62-121 | run without a step_callback: the loop stops at the first raised stop flag or after max_iterations; the history is non-increasing and entry k is the best cost up to iteration k; the best solution is valid, was built by an ant and has the best cost; the callback receives (best, cost) |
| Genetic.Swap | core/genetic.py:284-299 | a swap exchanges the two positions and keeps the multiset of genes |
| Genetic.Shuffle | core/genetic.py:154 | a shuffle is a permutation of its input |
| Genetic.InitializePopulation | core/genetic.py:142-157 | population_size chromosomes, each a permutation of customers 1..n-1 |
| Genetic.Decode | core/genetic.py:159-190 | the routes concatenate back to the chromosome, none is empty, each fits capacity unless it is a single over-sized customer, and a route closes only when the next customer would not fit |
| Genetic.DecodeValid | core/genetic.py:159-190 | decoding a permutation is a valid solution when every demand fits a vehicle |
| Genetic.Fitness | core/genetic.py:192-204 | with a non-negative matrix no chromosome has a negative fitness |
| Genetic.ArgMin | core/genetic.py:74 | the index of the first minimum |
| Genetic.Selection | core/genetic.py:206-224 | the winner is the first of the three sampled individuals with the lowest fitness among them |
| Genetic.Ox | core/genetic.py:226-261 | the child keeps the parent's segment in place and fills the other positions with the leftover genes in the donor's order; it has the parent's multiset of genes |
| Genetic.OxExactlyOnce | core/genetic.py:226-261 | the crossover of two permutations is a permutation |
| Genetic.FillOx | core/genetic.py:263-282 | the source's wrap-around filling loop computes exactly the reference crossover |
| Genetic.Crossover | core/genetic.py:226-261 | both children are the reference crossover of the parents in each order |
| Genetic.Mutate | core/genetic.py:125-128 | mutation keeps the multiset of genes |
| Genetic.MutateProper | core/genetic.py:284-299 | a mutated permutation is still a permutation |
| Genetic.Breed | core/genetic.py:115-128 | both children of a breeding step are permutations of the customers |
| Genetic.ArgSort | core/genetic.py:108 | the order is a permutation of the indices sorted by fitness |
| Genetic.ElitesLowest | core/genetic.py:108-110 | every elite has fitness no higher than any individual outside the elite |
| Genetic.NextPopulation | core/genetic.py:105-136 | the next population has the same size, all permutations, and starts with the elites in fitness order |
| Genetic.NewPopulation | core/genetic.py:105-136 | the source's fill loop computes exactly the reference next population |
| Genetic.RecordNonIncreasing | core/genetic.py:79-84 | the cost history never increases |
| Genetic.RecordValid | core/genetic.py:79-81 | the best solution is a valid solution |
| Genetic.Run | core/genetic.py:50-140 | the loop stops at the first raised stop flag or after max_generations; each population follows from the previous by the generation step; the history is non-increasing; the best solution is valid when demands fit; the callback receives (best, cost) |
| CvrpLib.Feed | convert_cvrplib.py:19-72 | parsing lines never removes a customer or changes one's id or coordinates (only demands are overwritten), and never adds a customer with the depot's node id 1 |
| CvrpLib.ParseVrpFile | convert_cvrplib.py:10-74 | node 1 never appears among the customers |
| CvrpLib.FeedConcat | convert_cvrplib.py:21-72 | parsing two blocks of lines is parsing the first, then the second from the state it left |
| CvrpLib.BlankLine | convert_cvrplib.py:22-26 | an all-blank line changes nothing |
| CvrpLib.MarkerLine | convert_cvrplib.py:38-39 | DEPOT_SECTION and EOF lines change nothing |
| CvrpLib.CapacityRead | convert_cvrplib.py:29-31 | a `CAPACITY : n` line sets the capacity to n |
| CvrpLib.DepotRead | convert_cvrplib.py:50-51 | a coordinate line for node 1 sets the depot |
| CvrpLib.CustomerRead | convert_cvrplib.py:52-58 | a coordinate line for another node appends a customer with demand 0 |
| CvrpLib.DemandLands | convert_cvrplib.py:63-72 | when customers are numbered 2, 3, … in list order, a demand line for node k sets exactly that customer's demand and changes nothing else |
| CvrpLib.ParseRender | convert_cvrplib.py:10-74 | parsing a CVRPLIB text rendered from data gives the data back |
| CvrpLib.ConvertToJson | convert_cvrplib.py:77-92 | the output always has a depot; it defaults only when parsing found none; capacity and customers are passed through |
| CvrpLib.ConvertRender | convert_cvrplib.py:77-92 | converting a rendered instance that has a depot gives the instance back |
| CvrpLib.JsonNameReplaces | convert_cvrplib.py:108 | a `.vrp` name gets its extension replaced by `.json` |
| CvrpLib.JsonNameHidden | convert_cvrplib.py:108 | a name whose only dot is its first character keeps its full text and gains `.json` |
| CvrpLib.BatchJobs | convert_cvrplib.py:96-111 | exactly the `.vrp` files are converted, each to its JSON name |
| CvrpLib.BatchJobsConcat | convert_cvrplib.py:103-105 | the jobs follow the listing order: the jobs of a listing split in two are the first part's jobs followed by the second's |
| Text.StripPadded | convert_cvrplib.py:22 | stripping removes exactly the surrounding whitespace |
| Text.JoinSplit | parameter_tester.py:403 | splitting on a separator and joining back with it is the identity |
| Text.WordsJoin | convert_cvrplib.py:43 | whitespace splitting of words joined by spaces gives the words |
| Text.ParseShowInt | parameter_tester.py:420 | `int()` reads back every integer's decimal text |
| ParamConfig.PutSpec | parameter_tester.py:430-434 | assigning a key sets that key, leaves every other key alone, and appends the key only when it is new |
| ParamConfig.ApplyRule | parameter_tester.py:682-684 | one range check raises exactly when its parameter holds text; otherwise it clamps the value into range, changes nothing else, and is the identity on an in-range value |
| ParamConfig.ApplyRulesSound | parameter_tester.py:681-702 | after the range checks every checked parameter is in range, the key order is unchanged and unchecked parameters are untouched |
| ParamConfig.ApplyRulesStable | parameter_tester.py:681-702 | range checks leave an in-range configuration as it is |
| ParamConfig.ApplyRulesRaise | parameter_tester.py:681-702 | the checks raise exactly when some checked parameter holds text |
| ParamConfig.FixAco | parameter_tester.py:681-702 | the ACO checks raise exactly when a checked parameter holds text; otherwise the result has 1 to 1000 ants, non-negative alpha and beta, rho in (0, 1), positive Q and iterations and non-negative elitist ants, keeps the key order and leaves unchecked parameters alone; an in-range configuration is not changed |
| ParamConfig.CapElitism | parameter_tester.py:716-718 | elitism falls below a positive population size, stays non-negative, and nothing else changes; the check raises exactly when both are present and one holds text |
| ParamConfig.Choose | parameter_tester.py:722-730 | an unknown method name is replaced by the fallback, a known one is kept, nothing else changes |
| ParamConfig.Pairing | parameter_tester.py:732-736 | partially-mapped crossover never ends paired with scramble mutation, and only the mutation method changes |
| ParamConfig.FixGa | parameter_tester.py:703-736 | the GA checks raise exactly when a numerically compared parameter holds text; otherwise the result has a positive population, rates in [0, 1], elitism in [0, population), a positive tournament size, known methods and no partially-mapped/scramble pair, and changes only the checked parameters; an in-range configuration is not changed |
| ParamConfig.FixConfig | parameter_tester.py:676-745 | when a comparison raises the original configuration is kept; otherwise the result is in the solver's ranges with the same keys and only checked parameters changed; an in-range configuration is kept |
| ParamConfig.FixConfigIdempotent | parameter_tester.py:676-745 | repairing twice gives the same as repairing once, including the fallback to the original copy |
| ParamConfig.ExpandAt | parameter_tester.py:424-434 | one nested loop level produces, in order, each earlier configuration with each value of the new key |
| ParamConfig.ExpandMember | parameter_tester.py:424-434 | the configurations of one loop level are exactly earlier configurations with one value of the new key assigned |
| ParamConfig.GridMember | parameter_tester.py:424-434 | a configuration is in a grid exactly when it is the base with one value chosen from each axis |
| ParamConfig.AssignLookup | parameter_tester.py:429-434 | each loop key holds its chosen value |
| ParamConfig.AssignKeeps | parameter_tester.py:429 | keys not set by the loops keep the base's value |
| ParamConfig.ReadReals | parameter_tester.py:403-404 | parsing a float list succeeds exactly when every stripped piece parses, and then yields one value per piece |
| ParamConfig.ReadInts | parameter_tester.py:420 | parsing an int list succeeds exactly when every stripped piece parses as an integer, one value per piece |
| ParamConfig.ReadIntsList | parameter_tester.py:420 | a comma list of integers, with blanks around the items, reads back as those integers |
| ParamConfig.ReadRealsList | parameter_tester.py:403-404 | a comma list of float texts reads back as the floats |
| ParamConfig.ReadBoolsList | parameter_tester.py:406-418 | a comma list of True/False words reads back as the booleans; other words are dropped |
| ParamConfig.ReadNamesList | parameter_tester.py:508-510 | a comma list of method names reads back as the names |
| ParamConfig.BaseConfigLookup | parameter_tester.py:397-400 | the base configuration has every parameter except num_runs |
| ParamConfig.AcoGridCount | parameter_tester.py:423-438 | the ACO grid has the product of the five list lengths as its size |
| ParamConfig.AcoGridMember | parameter_tester.py:424-434 | an ACO configuration is in the grid exactly when it is the base with one alpha, beta, min-max flag, local-search flag and elitist count chosen from the lists |
| ParamConfig.AcoConfigs | parameter_tester.py:394-438 | building fails exactly when some alpha, beta or elitist-ants piece does not parse; otherwise there is one configuration per combination, the product of the five list lengths |
| ParamConfig.AcoConfigsFromLists | parameter_tester.py:394-438 | value lists written into the five fields produce exactly the grid over those values |
| ParamConfig.Adjust | parameter_tester.py:543-552 | the elitism cap raises exactly when population_size holds text |
| ParamConfig.AdjustSpec | parameter_tester.py:543-552 | after adjustment, elitism is below the population size (default 50); elitism already below it is kept; tournament_size is 3 for non-tournament selection and unchanged otherwise; every other key is kept |
| ParamConfig.AdjustAll | parameter_tester.py:527-556 | adjusting a list raises exactly when some entry's population size is text; otherwise each entry is adjusted |
| ParamConfig.GaGridCount | parameter_tester.py:526-556 | the GA grid has the product of the seven list lengths as its size |
| ParamConfig.GaGridMember | parameter_tester.py:527-541 | before adjustment, a GA configuration is in the grid exactly when it is the base with one value chosen from each of the seven lists |
| ParamConfig.GaGridRaise | parameter_tester.py:527-564 | the GA grid raises exactly when it is non-empty and the base population size is text |
| ParamConfig.GaGridAdjusted | parameter_tester.py:527-556 | every GA configuration has elitism below its population size and the tournament default for non-tournament selection, and otherwise keeps the base's parameters |
| ParamConfig.GaGridMemberAdjusted | parameter_tester.py:527-556 | a configuration is produced exactly when it is an adjusted grid point |
| ParamConfig.GaConfigs | parameter_tester.py:499-564 | building fails exactly when a rate or elitism piece does not parse, or the grid is non-empty and the base population size is text; otherwise there is one configuration per combination of the seven lists, each with elitism below its population size and the base's other parameters |
| ParamConfig.GaConfigsFromLists | parameter_tester.py:499-556 | value lists written into the seven fields produce exactly the adjusted grid over those values |
| ParamConfig.AddConfigs | parameter_tester.py:555 | new configurations are appended after the existing ones in order, and nothing is appended when building raised |
| ParamConfig.FormatConfig | parameter_tester.py:292-299 | the summary is empty exactly when the configuration has none of the highlighted keys |
| ParamConfig.FormatIgnores | parameter_tester.py:292-299 | changing a non-highlighted key does not change the summary |

## Left out

- The Tk GUI, threads, `time.sleep`, `print` and message boxes are I/O with no effect on the computed values.
- File reading and writing are left out. Files are records (`Cvrp.ProblemRecord`, `Cvrp.RawRecord`) or line sequences (`CvrpLib`), and the directory listing is a list of names in the order the operating system gives.
- `json.load` type errors are not modelled. A JSON field of the wrong type is not distinguished from a missing one: both make loading fail.
- Randomness (`random`, `numpy.random`, seeding) is explicit draw sequences with the ranges the libraries guarantee. The library's generator itself is not modelled.
- Floating-point arithmetic is left out: `real` is exact. `math.sqrt`, `**`, `float()` and float `repr` are function parameters, with only the properties stated where they are used (non-negative root and power, reading back a printed float).
- The ACO `step_callback` payload and the GA `step_callback` payload are left out. When the solver runs to completion they only report the state, and the best cost and history the model tracks are unaffected. `Aco.Run` is the ACO run without a `step_callback`; with one, the exception below ends the run early.
- `stop()` is modelled as a sequence of stop flags, one read at each loop head. Concurrent setting of the flag is left out.
- `Genetic.ArgSort` is a stable insertion argsort, while `np.argsort` is not stable. Tied fitness values are equal, so the elite property is unaffected, but the order of tied elites may differ.
- `Genetic.Run` requires workable settings: a population size of at least 1 and an elitism count no larger than it. With `population_size <= 0`, `np.argmin` of the empty fitness list raises (`core/genetic.py:74`). With `elitism > population_size`, the elite loop raises `IndexError` (`core/genetic.py:108-110`). Neither error is modelled. Through `RunDraws`, it also requires draws the library calls accept: a population of at least 3 whenever a generation breeds, since `random.sample(range(len(population)), 3)` raises `ValueError` otherwise (`core/genetic.py:219`); two crossover points inside the chromosome whenever a crossover fires, so at least 2 customers besides the depot, since `random.randint(0, size - 2)` raises `ValueError` otherwise (`core/genetic.py:240-241`); and swap positions inside the chromosome whenever a mutation fires. These errors are not modelled.
- `Genetic.Mutate` requires the swap positions to lie inside the chromosome when it mutates, so an empty chromosome is never mutated. For one, `random.randint(0, -1)` raises `ValueError` (`core/genetic.py:294-295`); that error is not modelled.
- `Aco.Run` requires every single demand to fit the vehicle capacity. Otherwise `construct_solution` never terminates (`core/aco.py:133-159`): no candidate fits, the empty route is dropped and the same customers remain. Non-termination is not modelled.
- `Aco.Run` allows `num_ants <= 0` and then completes with no ant solutions, as the source does without a `step_callback`. With a `step_callback`, which every caller in the repository passes, `np.argmin` of the empty cost list raises `ValueError` in the first iteration (`core/aco.py:102-103`). The history then holds one entry and the completion callback never fires. That error is not modelled.
- `Aco.Run` requires an evaporation rate in [0, 1] and a non-negative Q, which keep the pheromone non-negative. Outside them an entry can turn negative; its power is then negative or NaN, and numpy either rejects the probabilities or falls back to a uniform choice. Neither path is modelled, and `**` is only assumed non-negative for non-negative bases.
- `Cvrp.IsSolutionValid`, `Cvrp.RouteLength` and `Cvrp.RouteDemand` require every route entry to be a customer index: `AllInRange` or `InRange`, with `Route = seq<nat>`. In the source, an index of at least `len(customers)` raises `IndexError`, from `self.distances[prev_node][node]` (`core/cvrp.py:130`) or `self.customers[i].demand` (`core/cvrp.py:140`). A negative index silently reads from the end of the list. Neither behaviour is modelled.
- `Aco.NewColony`, `Aco.Run` and `Genetic.Run` require `Cvrp.Ready`: a distance matrix with one row and one column per customer. A fresh `CVRP()` has no matrix (`core/cvrp.py:28`), and a load that fails part-way leaves customers without a recomputed one (`core/cvrp.py:68-81`); `run_experiment` checks only that a problem object exists (`parameter_tester.py:608`). With no matrix and two or more customers, `cvrp.distances[i, j]` raises `TypeError` in the ACO constructor (`core/aco.py:44`), and the GA raises the same error in `calculate_route_distance`. A stale matrix of another size raises `IndexError` when it is too small and silently uses stale distances when it is too large. None of these paths is modelled.
- `ParamConfig.CapElitism` treats two text values as raising. Python compares two strings without raising. Inside `ParamConfig.FixGa` the case never arises, because the range checks before the cap already raise on text.
- `Genetic.Selection` requires a population of at least 3, which is what `random.sample(..., 3)` needs; the `ValueError` below that is not modelled.
- `Genetic.Crossover` requires two crossover points `0 <= point1 < point2 < size`, which `random.randint` gives only for chromosomes of length at least 2; the error for shorter chromosomes is not modelled.
- `CvrpLib.ParseRender` requires the rendered customers to be numbered 2, 3, … in order. The demand section finds a customer by position `id - 2`, so only such instances round-trip; others are parsed as written.
- `ParamConfig.Adjust` requires the elitism to be an integer, because the loop always sets it from the `int()`-parsed list before the check runs.
- `Text.Lower` folds ASCII letters only; Unicode case folding is not modelled. This only affects whether a word equals `true` or `false`.
- `Text.ParseInt` covers ASCII digits only; Python also accepts other Unicode decimal digits.
- `ParamConfig.FixConfigIdempotent` is stated for the repaired result. The warning messages printed on the way are left out.
- The parameter tester's per-run statistics, charts, CSV export and result tables are outside the modelled core. So are the GUI's other tabs and `main.py`.
