# Flight-route planner: shortest route and delivery cost

A model of the core of a small C# program. The program loads a directed flight
graph in which every route has length 8. It runs Dijkstra's algorithm from a
start city, rebuilds the route to a destination from the predecessor links, and
prices a parcel delivery over that route.

Modules, leaf first:

- `Wrappers`: `Option` and `Result`.
- `Routes`: the `Route` value (Route.cs). Also the outgoing-route query the engine runs with `FindAll`.
- `Parcels`: the `ParcelType` enumeration with its codes, and the `Parcel` value (Parcel.cs).
- `Costs`: `CalculateParcelCost` and the per-flight scaling of the total route length.
- `Nodes`: distances (a natural number or infinity) and the `Node` record: name, `Value`, `PreviousNode`.
- `Paths`: paths through the route list and their lengths. Correctness is measured against these.
- `Queues`: the priority queue as a class over a list of city names. `First` is a least-distance entry by current distances.
- `Lists`: list reversal.
- `Dijkstra`: one relaxation step as a function on a snapshot of the engine state. Also the loop invariant and the lemmas that carry it through a step and to the end.
- `Planner`: the program's static state as the class `FlightGraph`, whose methods update it in place:
  - the loader;
  - the query setup;
  - the relaxation loop (`CheckNode`, a `while` loop in place of the tail recursion);
  - path reconstruction;
  - the end-to-end query.
- `Scenarios`: the four-city sample graph A-B, B-C, A-C, D-A. It has one query answered by a direct flight and one query to a city no route enters.

Two cases the code handles silently are modelled as the code handles them:

- A weight of exactly 5 kg falls into no weight tier and adds 0. The same holds below 1 kg.
- A size other than A, B or C adds 0 instead of being rejected.

## Model

| member | source | states |
|---|---|---|
| Routes.Outgoing | Program.cs:159 | the routes leaving a city are exactly the listed routes whose origin is that city, and there are no more of them than routes |
| Parcels.Code | Parcel.cs:15-20 | Weapons has code 1, CautiousParcels 2 and RefrigeratedGoods 3 (each in both directions), and decoding a code gives the category back |
| Parcels.FromCode | Parcel.cs:15-20 | a code names a category exactly when it lies in 1..3: 1 names Weapons, 2 CautiousParcels, 3 RefrigeratedGoods, each in both directions |
| Parcels.CodeInjective | Parcel.cs:17-19 | two categories have the same code if and only if they are the same category |
| Parcels.FromCodeRoundTrip | Parcel.cs:17-19 | every code in range decodes to a category whose code is that code again |
| Nodes.NewNode | Program.cs:98-99 | a city the loader creates carries its own name, is unreached and has no predecessor |
| Costs.WeightSurcharge | Program.cs:224-232 | 20 exactly on [1, 5); 40 exactly above 5; 0 exactly below 1 or at 5 |
| Costs.SizeSurcharge | Program.cs:234-245 | A adds 40, B adds 48, C adds 80, and exactly the sizes outside A, B, C add 0 |
| Costs.TypeFactor | Program.cs:247-258 | Weapons scale the subtotal by 2, cautious parcels by 1.75, refrigerated goods by 1.1 |
| Costs.ParcelCost | Program.cs:220-261 | the leg cost is the sum of the weight and size tiers scaled by the category factor; it lies in [0, 240], is 0 exactly when neither tier applies, and is at least the sum of the two tiers |
| Costs.DeliveryCost | Program.cs:211-214 | the delivery cost is never negative and is 0 for a route of length 0 |
| Costs.DeliveryCostPerLeg | Program.cs:211-214 | a route of k flights of length 8 costs the leg cost k times |
| Costs.DeliveryCostMonotone | Program.cs:211-214 | a longer route never costs less |
| Costs.WorkedExample | Program.cs:220-261 | a 3 kg parcel of size B marked cautious costs 119 per leg and 238 over a route of length 16 |
| Lists.Reverse | Program.cs:205 | reversal keeps the length |
| Lists.ReverseIndex | Program.cs:205 | position i of the reversed list holds position n-1-i of the original |
| Lists.ReverseInvolution | Program.cs:205 | reversing twice gives the original list back |
| Queues.PrioQueue.constructor | Program.cs:48 | a new queue is empty |
| Queues.PrioQueue.Count | Program.cs:154 | the count is 0 exactly when the queue is empty |
| Queues.PrioQueue.AddNodeWithPriority | Program.cs:180-183 | the city is appended and the queue is otherwise unchanged |
| Queues.PrioQueue.HasLetter | Program.cs:180 | a city counts as queued exactly when it is one of the queue's entries |
| Queues.PrioQueue.First | Program.cs:159 | the front is a queued city whose current distance no queued city undercuts, and every city queued before it is strictly farther |
| Queues.PrioQueue.RemoveFirst | Program.cs:186 | exactly the earliest occurrence of the front city goes and the other entries keep their order; a duplicate-free queue stays duplicate-free and no longer holds the removed city |
| Queues.RemovedFacts | Program.cs:186 | taking the earliest occurrence of a city out of the queue keeps every other entry, adds none, and leaves a duplicate-free queue duplicate-free without that city |
| Dijkstra.RelaxRoute | Program.cs:162-183 | a route into a visited city changes nothing; otherwise only its target may change, and only when the way through the front city is strictly shorter, in which case it gets that distance and the front city as predecessor; no distance grows; the target is queued if it was not already |
| Dijkstra.InitInv | Program.cs:46-49 | the state the query setup leaves satisfies the loop invariant |
| Dijkstra.FrontierBound | Program.cs:151-189 | a path from the start to an unvisited city passes through a queued city no farther than the path's length |
| Dijkstra.StartStep | Program.cs:159 | the least-distance queued city has its shortest distance already |
| Dijkstra.RelaxStep | Program.cs:162-183 | relaxing one more route out of the front city keeps the step invariant |
| Dijkstra.FinishStep | Program.cs:185-186 | marking the front city visited and dequeuing it restores the loop invariant |
| Dijkstra.Finish | Program.cs:154-157 | when the queue is empty, every distance is a shortest-path length, a city has one exactly when it is reachable, and predecessor links are tight |
| Dijkstra.ImprovedViaStep | Program.cs:172-176 | across a round, a city that changed got strictly closer, has the front city as predecessor and is entered by a route already relaxed; one more relaxation keeps this |
| Dijkstra.LoweredTransitive | Program.cs:172-174 | distances that only went down in two stretches went down overall |
| Planner.LoadedRoutes | Program.cs:93-103 | one route per record, in file order, with the record's endpoints and length 8 |
| Planner.LoadAllShape | Program.cs:94-104 | loading keeps every known city unchanged, adds each new endpoint once as an unreached city, marks all endpoints unvisited and appends one length-8 route per record |
| Planner.UniformWeight | Program.cs:93 | when all routes have one length c, a path of k routes has length c times k |
| Planner.FlightGraph.constructor | Program.cs:11-18 | the static state starts empty |
| Planner.FlightGraph.AddRecord | Program.cs:96-103 | both endpoints become known and unvisited, an existing city is left as it was, one length-8 route is appended even for a pair already joined, and the loaded state is kept |
| Planner.FlightGraph.InitGraph | Program.cs:94-104 | the state afterwards is the fold of the one-record step over the records, and the loaded state is kept |
| Planner.FlightGraph.InitQuery | Program.cs:46-49 | for a known start, its distance becomes 0 and the queue holds exactly it; for an unknown start, nothing changes and this is reported |
| Planner.FlightGraph.Relax | Program.cs:162-183 | the engine state afterwards is the relaxation function applied to the state before |
| Planner.FlightGraph.ProcessFront | Program.cs:159-186 | one round visits exactly one unvisited city, keeps the loop invariant at that city's distance, lowers distances only, leaves visited cities untouched, and changes only cities that a route out of the visited city enters, each getting that city as predecessor and getting strictly closer, so an equal-length alternative never replaces a predecessor |
| Planner.FlightGraph.CheckNode | Program.cs:151-189 | when the loop ends, the queue is empty, every distance is a shortest-path length, exactly the unreachable cities stay unvisited, distances never went up, and it ran at most once per city |
| Planner.FlightGraph.CollectPredecessors | Program.cs:196-203 | the walk starts at the destination, ends at the start, follows predecessor links, and its routes add up to the destination's distance |
| Planner.FlightGraph.ShortestPath | Program.cs:196-205 | an unknown destination or an unreachable one is reported as such, and in no other case; otherwise the list runs from start to destination along a shortest route, each city the predecessor of the next, and it is just the start when destination = start |
| Planner.FlightGraph.FindRoute | Program.cs:44-56 | the query fails exactly for an unknown start or destination, or an unreachable destination; otherwise it yields a shortest route, its length is 8 per flight, and the cost is the delivery cost of that length |
| Planner.RouteLengthAndPrice | Program.cs:211-214 | over the loaded routes, a shortest route of k flights has length 8k and its delivery costs the leg cost k times |
| Planner.ReverseChain | Program.cs:205 | the predecessor walk, reversed, is a shortest route from start to destination |
| Scenarios.DirectIsShortest | Program.cs:93 | over the loaded routes, a single direct flight is a shortest path |
| Scenarios.OneFlight | Program.cs:196-205 | the route reconstructed to a city one direct flight away is exactly those two cities, at length 8 |
| Scenarios.Sample | Program.cs:94-104 | loading A-B, B-C, A-C, D-A yields four length-8 routes over the cities A, B, C, D |
| Scenarios.DirectFlightWins | Program.cs:44-56 | from A to C the query answers the direct route A, C of length 8, at the leg cost |
| Scenarios.UnreachableCity | Program.cs:196-203 | from A to D, which no route enters, the query reports an unreachable destination |

## Left out

- Console and file I/O are not modelled:
  - reading the parcel and the two cities from the console (Program.cs:67-79, 126-136);
  - the overview and result printing;
  - `CheckNode(String)`, which only prints;
  - opening and reading the graph file.
- The loader is given already-split `(from, to)` records.
- Distances and costs are unbounded naturals and reals. IEEE double rounding is not modelled.
- `Node` objects are records in the city map, referred to by name. Object identity and aliasing of `PreviousNode` references are not modelled.
  - Path reconstruction compares names where the source compares references (Program.cs:199).
- The C# source of `Node` and `PrioQueue` is not part of this model. The model gives each a representation of its own, `Nodes.Node` and `Queues.PrioQueue`, and the engine relies only on their contracts.
  - The queue is a list in insertion order.
  - `First` is a least-distance entry by current distances, the earliest one on ties.
- Queues.PrioQueue.First: the source reads `queue.First` again at Program.cs:167, 175 and 185. The model reads it once per round. For positive route lengths, such as the loader's 8, the two agree: every update in the round sets a distance strictly above the front city's, so the front city stays the earliest least entry. A route of length 0, which the relaxation loop's contract admits but the loader never builds, can lower an earlier queued city to tie the front city. A re-read `First` would then name that other city, and the model does not follow that case.
- The tail recursion of `CheckNode` is a `while` loop.
- `CheckNode`'s unused `destinationNode` parameter is dropped. The source never exits early.
- Planner.FlightGraph.CheckNode: requires that no route has negative length. The Route constructor does not check this; only the loader's constant 8 guarantees it.
- Planner.FlightGraph.Relax requires the same of the route it relaxes.
- Planner.FlightGraph.ShortestPath: requires positive route lengths so that the predecessor walk provably ends. The loader's constant 8 guarantees this.
- Planner.FlightGraph.FindRoute: an unknown start or destination is reported as `UnknownNode`. The source throws on the dictionary lookup instead (Program.cs:46, 197).
- An unreachable destination is reported as `Unreachable`. The source dereferences a missing predecessor at Program.cs:201 instead.
- Planner.FlightGraph.FindRoute: the cost is stated as the delivery cost of the route length. Its form as the leg cost per flight is stated separately by Planner.RouteLengthAndPrice.
- Type mismatches in the source are modelled as intended, with the category compared by enumeration member:
  - `Route` sits in another namespace;
  - the `Parcel` constructor is passed a string;
  - the category is compared against strings (Program.cs:77, 247-257).
