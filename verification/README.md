# Truck-and-drone scheduling core, modelled in Dafny

This project models the scheduling core of an adaptive large neighbourhood
search (ALNS) heuristic for a truck-and-drone routing problem with three
kinds of customer:

- D: a delivery, restocked by a drone that meets the truck at the customer;
- P: a pickup;
- DL: the delivery that belongs with a pickup.

A solution is one route per truck, a list of drone trips and a makespan. The
model covers:

- the instance data: customers, the Manhattan distance matrix, the
  pickup-to-dropoff map `pd_pairs` and the cached Euclidean distance;
- the feasibility check `is_feasible` / `check_truck_route`;
- evaluation: the truck timeline, the truck completion time, drone
  batching and timing, and the makespan;
- the three destroy operators: random, worst and related removal;
- the two repair operators: greedy insertion and regret-2 insertion;
- the initial solution: round-robin dealing followed by nearest-neighbour
  ordering of each route.

Every value is immutable:

- routes are `seq<seq<nat>>` and times are `real`;
- Python's in-place updates become functions that return the new
  solution;
- a Python exception that the source can raise becomes the `Failure` case
  of a `Result`, carrying the exception's message as CPython words it
  (`"list index out of range"`, `"integer modulo by zero"`,
  `"not enough values to unpack (expected 2, got 1)"`,
  `"Sample larger than population or is negative"`).

The random draws become explicit inputs: the positions `random.sample`
picks, the seed position `random.choice` draws, and the orders the two
`random.shuffle` calls produce, constrained to be permutations.

The modules follow the source files:

| module | models | file |
|---|---|---|
| `Options` | Option / Result | — |
| `Seqs` | sequence helpers (flatten, filter, dedup, remove first) | — |
| `Sorting` | a stable sort over a total preorder (Python's `sort`) | — |
| `Model` | instance data | model.py |
| `Solutions` | solution, feasibility | solution.py |
| `Evaluate` | timeline, truck time, drones, makespan | evaluate.py |
| `Destroy` | removal operators | destroy.py |
| `Repair` | insertion operators | repair.py |
| `InitialSolution` | construction | initial_solution.py |

## Model

| member | source | states |
|---|---|---|
| Model.NewCustomer | model.py:38-45 | The ready time is the file's minutes divided by 60, the weight is 1, and the other fields are copied. |
| Model.Distances | model.py:99-112 | The matrix is (n+1)×(n+1), and entry (i, j) is the Manhattan distance between node i and node j of depot-then-customers. |
| Model.DistanceMatrixMetric | model.py:99-112 | Node 0 is the depot at (10, 10) and node k is customer k. The matrix is non-negative, zero on the diagonal, symmetric and obeys the triangle inequality. |
| Model.LastDropoff | model.py:91 | `dl_dict[pid]` is absent iff no DL has that pairing id. Otherwise it is the id of the last DL with it (later entries overwrite earlier ones). |
| Model.PairsFrom | model.py:93-95 | An entry is produced exactly for a P customer whose pairing id some DL shares, and it maps to that id's last DL. |
| Model.LastDropoffWellIndexed | model.py:91 | With ids 1..n in file order, `dl_dict[pid] == v` iff v is the last DL with pairing id pid. |
| Model.PdPairsMeaning | model.py:88-97 | `pd_pairs` maps k to v iff customer k is a P and v is the last DL sharing its pairing id. |
| Model.PdPairs | model.py:88-97 | `build_pd_pairs`; it has no contract of its own. `PdPairsMeaning` characterizes it independently of the builder. |
| Model.PdPairsEntry | model.py:93-95 | Every entry of `pd_pairs` is a P key mapped to the last DL of its pairing id. |
| Model.PdPairsCoverPickups | model.py:94-95 | A P customer has an entry iff some DL shares its pairing id. |
| Model.PdPairsKeysDistinct | model.py:93-95 | A pickup is mapped to only one dropoff. |
| Model.DropoffOf | repair.py:28 | `pd_pairs.get(p)`: None iff p is no key; otherwise an entry of p. |
| Model.PickupOf | repair.py:37-40 | The reverse scan: None iff no entry has that dropoff; otherwise an entry with it. |
| Model.PairEntryInRange | model.py:91-95 | Every entry of a valid instance names a P and a DL of the instance that share a pairing id. |
| Model.PickupOfInverse | repair.py:37-40 | The pickup found by the reverse scan maps forward to the same dropoff. |
| Model.ArrivalBounds | evaluate.py:90-96 | With a positive speed the truck never arrives before it leaves, nor before the ready time of a D or DL. |
| Model.CachedEuclid | model.py:114-129 | The value is the Euclidean distance in both argument orders. The cache stays faithful and gains exactly the ordered key. |
| Model.Euclid | model.py:114-129 | The uncached distance; it has no contract of its own. `CachedEuclid` states that it agrees in both argument orders. |
| Model.CachedEuclidRepeat | model.py:119-121 | A repeated call, in either argument order, hits the cache: same value, cache unchanged. |
| Model.BuildInstance | model.py:47-55 | One customer per parsed line. The instance is valid when ids are 1..n in file order. |
| Solutions.NewSolution | solution.py:15-20 | One empty route per truck, no drone trips, makespan infinity. |
| Solutions.PickupPairsMeaning | solution.py:57 | A pairing id is a `pickup_served` key iff some pickup with that id has been visited. |
| Solutions.StepMeaning | solution.py:60-89 | One loop iteration passes iff the stop's dropoff has its pickup before it and the load after the stop is within `M_T`. |
| Solutions.WalkMeaning | solution.py:59-91 | The rest of the walk passes iff every remaining stop passes the per-stop check. |
| Solutions.CheckRouteMeaning | solution.py:47-91 | `check_truck_route` is true iff every stop has its pickup earlier (for a DL) and a load within capacity. |
| Solutions.CheckRoute | solution.py:47-91 | `check_truck_route`; it has no contract of its own. `CheckRouteMeaning` states it per stop, and `WalkMeaning` states it for the loop. |
| Solutions.CheckRouteIgnoresTiming | solution.py:53-68 | The verdict depends only on kinds and pairing ids: the time it accumulates is never read. |
| Solutions.CheckRouteAllowsNegativeLoad | solution.py:74-87 | A route with a second dropoff of an already picked-up pair passes although the load goes to -1. |
| Solutions.CheckRouteAllowsOpenLoad | solution.py:85-91 | A route ending with a pickup still on board passes: the final load is never checked. |
| Solutions.LeadingDropoffFails | solution.py:74-76 | A route that starts with a DL fails. |
| Solutions.IdRange | solution.py:36-37 | The ids 1..n, of which there are n. |
| Solutions.FeasibleMeansAllServed | solution.py:29-45 | With ids in range, the count test means every customer is on some route: feasible iff all served and every route passes. |
| Solutions.IsFeasible | solution.py:29-45 | `is_feasible`; it has no contract of its own. `FeasibleMeansAllServed` states that it holds iff every customer is served and every route passes. |
| Solutions.FeasibleAllowsRepeatedStop | solution.py:32-38 | A customer on two routes is still feasible: the set hides the repetition. |
| Evaluate.TimelineEntryAt | evaluate.py:87-110 | Entry i is stop i. Its arrival is the drive from the previous node, leaving at that node's departure (or at the start for the first stop). Its departure is arrival plus service time. |
| Evaluate.Timeline | evaluate.py:76-112 | One entry per stop, naming that stop, with departure = arrival + `delta`. |
| Evaluate.TimelineBounds | evaluate.py:90-98 | The first arrival is no earlier than the start. Each arrival is no earlier than the previous departure. No D/DL is reached before its ready time. |
| Evaluate.FinishIsLastDeparture | evaluate.py:143-156 | The time `calculate_truck_time` reaches before the return leg equals the last departure of the timeline. |
| Evaluate.TruckTimeIsReturn | evaluate.py:135-161 | The completion time is the last departure plus the drive from the last stop back to the depot. |
| Evaluate.TruckTime | evaluate.py:135-161 | An empty route takes no time. `TruckTimeIsReturn` and `TruckTimeAfterReady` state the rest of its meaning. |
| Evaluate.DeparturesGrow | evaluate.py:87-110 | Departures never decrease along the route when the speed is positive and the service time non-negative. |
| Evaluate.TruckTimeAfterReady | evaluate.py:143-161 | A truck never finishes before ready time + service time of any D or DL it serves. |
| Evaluate.DeliveryStops | evaluate.py:13-18 | Exactly the D stops of the route with their positions, in route order. |
| Evaluate.Batches | evaluate.py:34-40 | The blocks concatenate back to the list. Each has 1..`M_D` items, and all but the last are full. |
| Evaluate.MaxReady | evaluate.py:55-56 | The largest ready time among the trip's items, attained by one of them. |
| Evaluate.MakeTripTiming | evaluate.py:42-68 | The flight time is twice the depot leg plus `delta_prime`. Departure is the later of the latest ready time and "arrival − leg − `delta_prime`" at the first item's stop. |
| Evaluate.WithinEndurance | evaluate.py:71-72 | It keeps, in order, exactly the trips whose flight time is within `L_d`. |
| Evaluate.ScheduleDrones | evaluate.py:5-74 | Routes and makespan are unchanged, and there are no trips without drones. |
| Evaluate.ScheduleDronesWellFormed | evaluate.py:24-72 | Every scheduled trip carries 1..`M_D` D stops of the truck it meets and meets at the first of them. Its timing follows the source's formulas and lies within endurance. |
| Evaluate.TruckTripsWellFormed | evaluate.py:29-72 | Every trip of one truck is well formed in the sense above. |
| Evaluate.TruckItemsCoverDeliveries | evaluate.py:32-42 | Before the endurance filter, the trips of a truck carry exactly its D stops, in route order. |
| Evaluate.MakespanOf | evaluate.py:122-133 | The result is the largest of 0, the truck times and the drone return times, and it is one of them. |
| Evaluate.EvaluateSolution | evaluate.py:113-133 | An infeasible solution scores infinity and is left alone. A feasible one gets the scheduled trips and scores their makespan. |
| Evaluate.EvaluateIdempotent | evaluate.py:113-120 | Evaluating the evaluated solution again changes nothing and gives the same makespan. |
| Evaluate.MakespanOfAfterReady | evaluate.py:122-133 | The makespan is at least ready time + service time of every served D or DL customer. |
| Destroy.RemoveAll | destroy.py:25-28 | Each route keeps its other ids in order and loses every removed id. Route count, trips and makespan are unchanged. |
| Destroy.RandomRemoval | destroy.py:11-30 | With no stops it returns the solution alone. A negative size is an error. Otherwise it removes `min(q, n)` sampled stops. |
| Destroy.PickSubMultiset | destroy.py:23 | A sample at distinct positions takes each value at most as often as it occurs. |
| Destroy.RandomRemovalTakesServed | destroy.py:15-23 | The removed ids are, as a multiset, drawn from the served stops. |
| Destroy.SortSavings | destroy.py:50 | `sort(reverse=True)`: sorted by lexicographic ≥ and a permutation. |
| Destroy.Savings | destroy.py:37-44 | The list is empty iff no stop is served. |
| Destroy.SavingsMembers | destroy.py:37-44 | The listed savings are exactly (time before − time after dropping stop i, id, truck) for the stops of the routes. |
| Destroy.WorstRemoval | destroy.py:32-60 | With no stops it returns nothing removed. Otherwise it removes `min(q, n)` ids, none for q ≤ 0. |
| Destroy.Largest | destroy.py:52-53 | It takes `min(q, n)` ids, none for q ≤ 0. |
| Destroy.LargestDominates | destroy.py:49-53 | The ids taken are those of savings drawn from the list, each ranking at or above every saving left. |
| Destroy.WorstRemovalTakesLargest | destroy.py:36-60 | `worst_removal` removes the ids of the largest savings. |
| Destroy.SortNearby | destroy.py:83 | `sort()`: sorted by lexicographic ≤ and a permutation. |
| Destroy.Candidates | destroy.py:77-81 | Each candidate's distance is the matrix entry from the seed. |
| Destroy.CandidateIds | destroy.py:77-81 | The candidates are the stops other than the seed, in route order. |
| Destroy.CandidateMember | destroy.py:78-79 | x is a candidate iff x is served and is not the seed. |
| Destroy.RelatedIds | destroy.py:84-85 | The seed comes first, and at most `max(q, 1)` ids are taken. |
| Destroy.NearestAmongCandidates | destroy.py:85 | Only candidate ids are taken. |
| Destroy.NearestDominates | destroy.py:83-85 | The candidates taken each rank, in (distance, id) order, before every candidate left. |
| Destroy.RelatedRemoval | destroy.py:62-92 | With no stops nothing is removed. Otherwise the seed and at most `max(q, 1) − 1` others are removed. |
| Destroy.RelatedRemovalTakesOthers | destroy.py:76-85 | Beyond the seed only served stops other than the seed are taken. |
| Destroy.RelatedRemovalTakesNearest | destroy.py:76-85 | Beyond the seed the taken stops are the nearest to it. |
| Destroy.RelatedRemovalKeepsSeed | destroy.py:84-85 | With q ≤ 1, even q ≤ 0, only the seed is removed. |
| Destroy.RelatedRemovalCount | destroy.py:84-85 | Over distinct stops with q ≥ 1, exactly `min(q, n)` ids are removed. |
| Destroy.CandidateCount | destroy.py:77-81 | Over distinct stops every stop but the seed is a candidate. |
| Destroy.RandomRemovalSplitsPair | destroy.py:11-30 | Removal ignores pairing: sampling a pickup alone leaves its dropoff, whose route then fails the check. |
| Destroy.RelatedRemovalSplitsPair | destroy.py:62-92 | The same holds for related removal seeded at the pickup with q = 1. |
| Destroy.WorstRemovalSplitsPair | destroy.py:32-60 | The same holds for worst removal with q = 1 whenever the dropoff alone is served sooner than the pickup alone. |
| Destroy.WorstRemovalOfFirst | destroy.py:49-53 | Under that timing, q = 1 on the route [1, 2] removes the pickup. |
| Destroy.WorstOfTwo | destroy.py:36-53 | On one route [x, y], q = 1 removes x when the route without x is the quicker one. |
| Destroy.WorstSavingsOfTwo | destroy.py:36-44 | The costs list of [x, y] is the time saved without x, then without y. |
| Destroy.LargerFirst | destroy.py:49-53 | Of two savings, the descending sort takes the strictly larger first. |
| Repair.Group | repair.py:15-46 | The units name customers of the instance, and each two-customer unit is a pickup followed by its dropoff. |
| Repair.GroupPartition | repair.py:15-46 | The unit ids are distinct and are exactly the removed ids of kind D/P/DL. Under regret, lone dropoffs are left out. |
| Repair.GreedyGroupsAllRemoved | repair.py:15-46 | Greedy repair's units hold every removed customer exactly once. |
| Repair.RegretDropsLoneDropoff | repair.py:152-161 | For any removed list, a removed dropoff that no pairing entry names is left out of the regret units but kept by greedy grouping (repair.py:45-46). |
| Repair.LoneDropoffFrom | repair.py:135-161 | From any point of the loop, such a dropoff is emitted iff lone dropoffs are kept and it is still ahead. |
| Repair.LoneDropoffStep | repair.py:152-161 | One pass emits such a dropoff only as a lone greedy unit at its own position, and never marks it inserted. |
| Repair.DropoffHasNoDropoff | model.py:88-97 | In a valid instance no dropoff is a key of the pairing map. |
| Repair.LoneDropoffAlone | repair.py:152-161 | On the one-element list `[x]`, the regret units are empty and the greedy units are `[x]`. |
| Repair.RegretGroupCounts | repair.py:132-161 | Each kept removed customer appears once in regret's units, and nothing else does. There is a unit whenever something is kept. |
| Repair.RangeMeaning | repair.py:69 | Python `range(start, stop, step)`: starts at start, climbs by step, stays below stop and ends only when the next value would reach stop. |
| Repair.Take | repair.py:71 | A slice `s[:n]`: the first `min(n, |s|)` elements. |
| Repair.SampledPositions | repair.py:65-69 | Every sampled insertion point lies within the route. |
| Repair.RegretPickupPositions | repair.py:208-210 | Every pickup position lies within the route. |
| Repair.DropoffPositions | repair.py:93-97 | Every dropoff position is after the pickup and at most len + 1. |
| Repair.PairsAt | repair.py:97-99 | The pairs tried at a pickup position are exactly the listed dropoff positions beyond it. |
| Repair.PlacementGroups | repair.py:60-108 | Every placement tried fits the route. |
| Repair.Placements | repair.py:57-108 | Every placement tried fits the route. |
| Repair.Candidate | repair.py:72 | The test route is one stop (single) or two stops (pair) longer. |
| Repair.CandidateMultiset | repair.py:101 | The test route holds the old stops plus the unit's ids. |
| Repair.CommitAsWritten | repair.py:117-121 | The route after the two `insert` calls is longer by the unit's size. |
| Repair.CommitMultiset | repair.py:117-121 | The two inserts add exactly the unit's ids, wherever they land. |
| Repair.SingleCommitIsCandidate | repair.py:111-113 | A lone customer is inserted exactly where it was checked. |
| Repair.PairCommitShift | repair.py:117-121 | The two `insert` calls put the dropoff one stop earlier than the test route, and agree with it only when it goes last or beside itself. |
| Repair.PairCommitDiffers | repair.py:252-255 | On route [a] with positions [0, 1] the checked route is [pk, a, d] but the committed one is [pk, d, a]. |
| Repair.TryMeaning | repair.py:72-79 | A placement yields an option iff its test route passes the check. The option is that truck and placement, costed at the test route's truck time. |
| Repair.ScanAllMeaning | repair.py:71-79 | A scan of one route records exactly the passing placements. |
| Repair.AllOptionsMeaning | repair.py:57-108 | Greedy's option list holds exactly the passing placements over all trucks. |
| Repair.BestFromMeaning | repair.py:76-79 | A strict `<` keeps the earliest of the cheapest options. |
| Repair.BestFromLeast | repair.py:76-79 | The scan yields nothing only when there is no option and no earlier best; what it yields costs no more than any option or the earlier best. |
| Repair.BestFromFirst | repair.py:76-79 | The scan keeps the earlier best, or replaces it with the first option strictly cheaper than it and than every option before. |
| Repair.CheapestLeast | repair.py:76-79 | Whenever an option exists, a cheapest one is found and it costs no more than that option. |
| Repair.CheapestMeaning | repair.py:50-108 | None iff no option; otherwise the first option of least cost. |
| Repair.GreedyNone | repair.py:110-123 | No best option iff no sampled placement is feasible. |
| Repair.GreedyBest | repair.py:50-108 | The best option is feasible and no dearer than any feasible placement. |
| Repair.GreedyPlace | repair.py:110-123 | A round, committing by the source's two inserts, keeps the route count and ids in range. |
| Repair.GreedyPlaceFails | repair.py:115 | A round fails iff there is no truck. |
| Repair.GreedyPlaceMeaning | repair.py:110-123 | With a feasible placement, the round applies the two inserts for one of least truck time; otherwise the unit goes to the end of the first route. |
| Repair.GreedyPlaceGrows | repair.py:110-123 | A round adds exactly the unit's ids. |
| Repair.GreedyPlaceIntended | repair.py:101-108 | The round as evidently intended (it commits the checked route) keeps the route count and ids in range. |
| Repair.GreedyPlaceIntendedMeaning | repair.py:101-108 | As intended, the route committed is a least-cost candidate route that passed the check. |
| Repair.GreedyPlaceSingle | repair.py:111-115 | For a lone customer the round as written and as intended agree. |
| Repair.GreedyPlaceAll | repair.py:49-123 | The loop over units, committing as written, keeps the route count and ids in range. |
| Repair.GreedyPlaceAllGrows | repair.py:49-123 | The loop fails iff there are units and no truck; otherwise it adds exactly the units' ids. |
| Repair.GreedyInsertionMeaning | repair.py:11-126 | Every removed customer is put back once, the makespan is evaluate_solution's, and it fails iff removed ≠ [] and no truck. |
| Repair.GreedyInsertion | repair.py:11-126 | A result keeps the route count and ids in range and carries evaluate_solution's makespan. `GreedyInsertionMeaning` adds coverage and the failure case. |
| Repair.KeepUntilPrefix | repair.py:197-201 | Early stopping keeps the first options still wanted, and at least one once the cap is reached. |
| Repair.KeepGroupsMeaning | repair.py:181-225 | The options kept are a subset of those found, none iff none were found, and all of them below the cap. |
| Repair.RegretOptionsMeaning | repair.py:177-225 | Regret's options come from the full scan; there are none iff the scan finds none, and all of them when below the cap. |
| Repair.RegretOptionSound | repair.py:192-222 | Each option of regret is a feasible placement with its own cost. |
| Repair.RegretOptionsFound | repair.py:177-225 | There are no options iff no placement is feasible, and below the cap every feasible placement is listed. |
| Repair.SortedCosts | repair.py:229 | The sorted costs are sorted and a permutation of the costs. |
| Repair.RegretMeaning | repair.py:228-230 | The regret is the gap between a cheapest option and the cheapest of the others. |
| Repair.RegretNonNegative | repair.py:230 | A regret is never negative. |
| Repair.IndexOf | repair.py:235 | `list.index` gives the first position holding the value. |
| Repair.RegretChoiceCheapest | repair.py:235-236 | The option taken is the first cheapest, as in greedy. |
| Repair.Preferred | repair.py:235-240 | The option taken is one of the unit's options. |
| Repair.PreferredCheapest | repair.py:235-240 | A unit is always inserted at its first cheapest option. |
| Repair.ScoreNonNegative | repair.py:228-241 | A unit's score is never negative. |
| Repair.SelectFromMeaning | repair.py:227-241 | The loop keeps the earlier pick when no unit beats the regret so far, else the earliest unit of top score. |
| Repair.SelectMeaning | repair.py:164-241 | No pick iff no unit has options; otherwise the earliest unit of largest score, at its cheapest option. |
| Repair.EarliestReady | repair.py:175 | The least ready time among the unit's customers, attained by one of them. |
| Repair.Evaluated | repair.py:171-175 | All units, in their order, when 20 or fewer. Otherwise 20 of them, each ready no later than any left out, in ascending earliest-ready order, with units of equal ready time kept in their `to_insert` order. |
| Sorting.SortBy | repair.py:174-175 | `sorted` with a key: the result is ordered, a permutation, and stable (equivalent elements keep their input order). |
| Repair.RegretPickMeaning | repair.py:163-241 | No pick iff no evaluated unit has a feasible placement. A pick is the top-scoring unit at a cheapest feasible option. |
| Repair.CommitPick | repair.py:243-257 | A commit by the source's two inserts keeps the route count and ids in range and consumes one unit. |
| Repair.Fallback | repair.py:244-255 | With no pick, the round keeps the route count and ids in range and consumes one unit. |
| Repair.CommitPickIntended | repair.py:217-222 | The commit as evidently intended (it commits the checked route) keeps the route count and ids in range and consumes one unit. |
| Repair.CommitPickIntendedMeaning | repair.py:217-222 | As intended, a pick is committed as its candidate route, which passed the check, and the unit leaves the list. |
| Repair.CommitPickSingle | repair.py:249-250 | For a lone customer the commit as written and as intended agree. |
| Repair.RegretStep | repair.py:163-257 | A round keeps the route count and consumes one unit. |
| Repair.RegretStepMeaning | repair.py:243-257 | A pick is committed by the two inserts at its positions, and the unit leaves the list. With no pick a single goes to the end of route 0; the round fails iff there is no route or the first unit is a pair, with IndexError's or ValueError's message. |
| Repair.AllIdsRemoveFirst | repair.py:257 | Removing one unit removes exactly its ids from those left. |
| Repair.RegretStepGrows | repair.py:243-257 | A round moves exactly the picked unit's ids into the routes. |
| Repair.RegretLoop | repair.py:164-257 | The loop, committing as written, keeps the route count and ids in range. |
| Repair.RegretLoopGrows | repair.py:164-257 | The loop fails with no truck and units left, and otherwise adds exactly the units' ids. |
| Repair.RegretInsertionMeaning | repair.py:128-260 | Each kept removed customer is put back once and nothing else, and the makespan is evaluate_solution's. |
| Repair.RegretInsertion | repair.py:128-260 | A result keeps the route count and ids in range and carries evaluate_solution's makespan. `RegretInsertionMeaning` adds coverage and the failure cases. |
| InitialSolution.ValidPairsTyped | model.py:91-95 | Every `pd_pairs` entry of a valid instance is a P key and a DL value, both in range. |
| InitialSolution.Closest | initial_solution.py:66-94 | The scan returns a position of the unvisited list. |
| InitialSolution.ClosestMeaning | initial_solution.py:66-94 | The scan finds the first eligible customer of least adjusted distance, or nothing iff none is eligible. |
| InitialSolution.SomeEligible | initial_solution.py:69-80 | Some unvisited customer is always eligible. |
| InitialSolution.Nearest | initial_solution.py:62-98 | The step returns an unvisited customer. |
| InitialSolution.NearestMeaning | initial_solution.py:92-98 | The fallback never fires: the step takes the first eligible customer of least adjusted distance. |
| InitialSolution.NearestEligible | initial_solution.py:69-80 | The step's choice is eligible: no DL whose pickup is still unvisited. |
| InitialSolution.NearestFrom | initial_solution.py:62-108 | The route has one stop per unvisited customer. |
| InitialSolution.NearestFromPermutes | initial_solution.py:100-101 | The route is a permutation of the unvisited customers. |
| InitialSolution.NearestRoutePermutes | initial_solution.py:50-110 | The result has the same customers; for more than one it is duplicate-free, and it is a permutation of a duplicate-free input. |
| InitialSolution.NearestNeighborRoute | initial_solution.py:50-110 | For more than one customer, the route is a permutation of the distinct customers. |
| InitialSolution.NearestNotWaiting | initial_solution.py:69-80 | The step never picks a DL whose pickup is still unvisited. |
| InitialSolution.NearestFromPrecedes | initial_solution.py:69-80 | In the route each DL comes after its pickup. |
| InitialSolution.NearestRoutePrecedes | initial_solution.py:50-110 | `nearest_neighbor_route` keeps every DL after its pickup. |
| InitialSolution.NearestFromChoice | initial_solution.py:62-108 | Stop k is the step's choice from stop k − 1 among the customers not yet visited. |
| InitialSolution.DeliveryIdsInRange | initial_solution.py:18 | Each D id is one of the ids listed. |
| InitialSolution.Deal | initial_solution.py:26-37 | Dealing keeps the route count. |
| InitialSolution.DealColumn | initial_solution.py:27-37 | Route t gets, in order, the chunks whose index is t mod the truck count. |
| InitialSolution.DealGrows | initial_solution.py:26-37 | Dealing adds exactly the dealt customers. |
| InitialSolution.ColumnMember | initial_solution.py:28-34 | x is dealt to route t iff some chunk of index ≡ t holds it. |
| InitialSolution.OrderRoutes | initial_solution.py:40-44 | Each non-empty route is replaced by its nearest-neighbour order. |
| InitialSolution.OrderRoutesMember | initial_solution.py:40-44 | Ordering keeps each route's customers. |
| InitialSolution.OrderRoutesFlatten | initial_solution.py:40-44 | Ordering keeps the served customers. |
| InitialSolution.InitialFails | initial_solution.py:13-47 | It fails iff no truck and something to deal. Otherwise: one route per truck, ids in range, the makespan is evaluate_solution's. |
| InitialSolution.CreateInitialSolution | initial_solution.py:13-47 | A result has ids in range and evaluate_solution's makespan. `InitialFails`, `InitialCovers`, `InitialRoundRobin` and `InitialPrecedes` state the rest. |
| InitialSolution.InitialRoundRobin | initial_solution.py:25-37 | Truck t serves exactly the shuffled D customers and pairs whose index is t mod the truck count. |
| InitialSolution.InitialCovers | initial_solution.py:17-37 | The customers served are exactly the D customers and both ends of every `pd_pairs` entry. |
| InitialSolution.InitialPrecedes | initial_solution.py:33-44 | In every initial route each DL comes after the pickup found for it. |

## Left out

- File parsing, `print` and the instance file format (model.py:57-86). `BuildInstance` starts from already-parsed lines.
- `Solution.copy` (solution.py:22-27). In a value model every update already makes a new solution.
- `float32` storage of the distance matrix (model.py:102) and all floating point. Times and distances are exact reals.
- `math.sqrt` is a parameter of the instance and is left uninterpreted; not even its non-negativity is assumed, since no property proved here depends on it.
- `random.sample`, `random.choice` and `random.shuffle` are inputs, constrained to distinct positions, a served position and permutations.
- Python's set iteration order in `nearest_neighbor_route` is modelled as the first-occurrence order of the route. CPython's actual hash order is not modelled.
- The ALNS loop, its operator weights and scores, simulated annealing, and the files alns.py, main.py, greedy.py, io_utils.py, utils.py and data_structures.py are not part of this model.
- `delta_t`, `delta_d` and the ALNS fields of `Parameters` are carried but never read by the core.
- The `time` variable of `check_truck_route` is computed but never read. `CheckRouteIgnoresTiming` proves it does not matter.
- `pickup_done` in `nearest_neighbor_route` is updated but never read (initial_solution.py:103-106).
- The load is never required to stay non-negative or to return to zero, and the truck time adds no depot handoff `delta_t`. The code does neither, so the model follows the code (see `CheckRouteAllowsNegativeLoad` and `CheckRouteAllowsOpenLoad`).
- Members that divide by the truck speed require `truckSpeed != 0`, even for empty routes, where the source would not divide.
- The drone members require `droneCapacity >= 1` and `droneSpeed != 0` when drones exist. With capacity 0 the source loops forever on a D stop, and speed 0 divides by zero.
- Repair.GreedyInsertionMeaning: proved only when the removed ids are distinct, every `pd_pairs` dropoff has one pickup, and every removed customer is D, P or DL. The destroy operators produce distinct ids only when the routes have no repeated stop.
- Repair.RegretInsertionMeaning: proved under the same assumptions on removed ids and dropoffs.
- Repair.GroupPartition: proved under the same distinct-ids assumption.
- Repair.GreedyPlaceIntended and Repair.CommitPickIntended: the corrected commit is modelled for one round only. `GreedyPlaceAll`, `GreedyInsertion`, `RegretLoop` and `RegretInsertion` follow the code as written, so no lemma says that the routes they commit pass the check.
- Failures carry Python's error message only. The exception type and the traceback are not modelled.

## Findings

| source | as written | input that shows it | evidently intended | confidence | as-written member | corrected member |
|---|---|---|---|---|---|---|
| repair.py:117-121, repair.py:252-255 | The pair is committed with `insert(p_pos, p_id)` and then `insert(dl_pos, dl_id)` on the list that already holds the pickup. The dropoff therefore lands one stop earlier than in the `test_route` (repair.py:101, :217) that was checked and costed. | Route `[a]`, positions `[0, 1]`: the checked route is `[pk, a, d]`, the committed one is `[pk, d, a]`. | Commit the route that was checked, `route[:p_pos] + [p_id] + route[p_pos:dl_pos] + [dl_id] + route[dl_pos:]`. | not executed | Repair.CommitAsWritten, Repair.PairCommitShift, Repair.PairCommitDiffers, Repair.GreedyPlaceMeaning, Repair.RegretStepMeaning | Repair.GreedyPlaceIntendedMeaning, Repair.CommitPickIntendedMeaning |

The repair operators follow the code as written: each round commits through
`CommitAsWritten`. The corrected commit is modelled next to it, one round at
a time, in `GreedyPlaceIntended` and `CommitPickIntended`.
