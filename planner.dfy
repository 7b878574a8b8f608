/** The flight graph and the single shortest-route query run over it
    (Program.cs): loading the route records, preparing the start city,
    the relaxation loop, path reconstruction and the delivery cost. */
module Planner {
  import opened Wrappers
  import opened Routes
  import opened Paths
  import opened Nodes
  import opened Queues
  import opened Dijkstra
  import opened Lists
  import opened Parcels
  import opened Costs

  /** The length the loader gives every route. */
  const RouteCost: nat := 8

  /** One line of the graph file, already split at the comma. */
  datatype Record = Record(from: string, to: string)

  /** Why no route can be reported. */
  datatype PathError = UnknownNode | Unreachable

  /** What a successful query yields: the cities from start to destination,
      the route length and the delivery cost. */
  datatype Delivery = Delivery(path: seq<string>, distance: nat, cost: real)

  /** The routes the loader appends for `records`, in file order. */
  function LoadedRoutes(records: seq<Record>): (rs: seq<Route>)
    ensures |rs| == |records|
    ensures forall i :: 0 <= i < |rs| ==>
      rs[i].from == records[i].from && rs[i].to == records[i].to && rs[i].distance == RouteCost
  {
    if records == [] then []
    else LoadedRoutes(records[..|records| - 1]) +
         [Route(records[|records| - 1].from, records[|records| - 1].to, RouteCost)]
  }

  /** The city names the records mention. */
  ghost function Endpoints(records: seq<Record>): set<string>
  {
    (set r | r in records :: r.from) + (set r | r in records :: r.to)
  }

  /** Loading one more record extends the routes and the city names by that record. */
  lemma LoadStep(records: seq<Record>, i: nat)
    requires i < |records|
    ensures LoadedRoutes(records[..i + 1]) ==
      LoadedRoutes(records[..i]) + [Route(records[i].from, records[i].to, RouteCost)]
    ensures Endpoints(records[..i + 1]) == Endpoints(records[..i]) + {records[i].from, records[i].to}
  {
    var prefix := records[..i + 1];
    assert prefix[..i] == records[..i] && prefix[i] == records[i];
    assert prefix == records[..i] + [records[i]];
  }

  /** The loader's state as a value: the city map, the route list and the
      unvisited cities. */
  datatype Graph = Graph(nodes: map<string, Node>, routes: seq<Route>, unvisited: set<string>)

  /** The city map with `name` added as a new city unless already present. */
  function WithCity(nodes: map<string, Node>, name: string): map<string, Node>
  {
    if name in nodes then nodes else nodes[name := NewNode(name)]
  }

  /** The effect of loading one record on the graph. */
  function AddTo(g: Graph, r: Record): Graph
  {
    Graph(WithCity(WithCity(g.nodes, r.from), r.to),
          g.routes + [Route(r.from, r.to, RouteCost)],
          g.unvisited + {r.from, r.to})
  }

  /** The graph after loading `records` in file order. */
  function LoadAll(g: Graph, records: seq<Record>): Graph
    decreases |records|
  {
    if records == [] then g
    else AddTo(LoadAll(g, records[..|records| - 1]), records[|records| - 1])
  }

  /** Loading keeps every known city as it was, adds every city the records
      name as a fresh one, marks them all unvisited and appends one route of
      the loader's length per record. */
  lemma {:induction false} LoadAllShape(g: Graph, records: seq<Record>)
    ensures LoadAll(g, records).routes == g.routes + LoadedRoutes(records)
    ensures LoadAll(g, records).nodes.Keys == g.nodes.Keys + Endpoints(records)
    ensures forall v :: v in g.nodes ==> LoadAll(g, records).nodes[v] == g.nodes[v]
    ensures forall v :: v in LoadAll(g, records).nodes && v !in g.nodes ==>
      LoadAll(g, records).nodes[v] == NewNode(v)
    ensures LoadAll(g, records).unvisited == g.unvisited + Endpoints(records)
    decreases |records|
  {
    if records != [] {
      var n := |records| - 1;
      var before := LoadAll(g, records[..n]);
      LoadAllShape(g, records[..n]);
      LoadStep(records, n);
      assert records[..n + 1] == records;
      AddToShape(before, records[n]);
    }
  }

  /** Loading one record: the step of `LoadAllShape`. */
  lemma AddToShape(g: Graph, r: Record)
    ensures AddTo(g, r).routes == g.routes + [Route(r.from, r.to, RouteCost)]
    ensures AddTo(g, r).nodes.Keys == g.nodes.Keys + {r.from, r.to}
    ensures forall v :: v in g.nodes ==> AddTo(g, r).nodes[v] == g.nodes[v]
    ensures forall v :: v in AddTo(g, r).nodes && v !in g.nodes ==> AddTo(g, r).nodes[v] == NewNode(v)
    ensures AddTo(g, r).unvisited == g.unvisited + {r.from, r.to}
  {
  }

  /** Over routes that all have length `c`, a path of `k` routes has length `c * k`. */
  lemma {:induction false} UniformWeight(routes: seq<Route>, c: int, source: string, p: seq<Route>, target: string)
    requires forall i :: 0 <= i < |routes| ==> routes[i].distance == c
    requires IsPath(routes, source, p, target)
    ensures Weight(p) == c * |p|
    decreases |p|
  {
    if p != [] {
      UniformWeight(routes, c, source, p[..|p| - 1], p[|p| - 1].from);
    }
  }

  /** The program's static state: the city map, the route list and the set
      of cities not yet visited. */
  class FlightGraph {
    var nodes: map<string, Node>
    var routes: seq<Route>
    var unvisited: set<string>

    /** Every city is stored under its own name, every route joins two
        cities, and only cities are unvisited. */
    ghost predicate Valid()
      reads this
    {
      && (forall v :: v in nodes ==> nodes[v].name == v)
      && RoutesWithin(routes, nodes)
      && unvisited <= nodes.Keys
    }

    /** The state loading leaves: every city unreached, unvisited and without
        predecessor, every route of the loader's length. */
    ghost predicate Loaded()
      reads this
    {
      && Valid()
      && (forall v :: v in nodes ==> nodes[v].value == Infinity && nodes[v].previous == None)
      && unvisited == nodes.Keys
      && forall i :: 0 <= i < |routes| ==> routes[i].distance == RouteCost
    }

    ghost function Contents(): Graph
      reads this
    {
      Graph(nodes, routes, unvisited)
    }

    ghost function State(q: PrioQueue): Snapshot
      reads this, q
    {
      Snapshot(nodes, unvisited, q.entries)
    }

    constructor ()
      ensures Loaded() && nodes == map[] && routes == [] && unvisited == {}
    {
      nodes := map[];
      routes := [];
      unvisited := {};
    }

    /** Loading one record: each endpoint not yet known becomes a new city,
        both become unvisited, and one route of the loader's length is
        appended, even if the same pair is already joined. */
    method AddRecord(from: string, to: string)
      requires Valid()
      modifies this
      ensures Valid()
      ensures routes == old(routes) + [Route(from, to, RouteCost)]
      ensures nodes.Keys == old(nodes).Keys + {from, to}
      ensures forall v :: v in old(nodes) ==> nodes[v] == old(nodes)[v]
      ensures forall v :: v in nodes && v !in old(nodes) ==> nodes[v] == NewNode(v)
      ensures unvisited == old(unvisited) + {from, to}
      ensures old(Loaded()) ==> Loaded()
      ensures Contents() == AddTo(old(Contents()), Record(from, to))
    {
      if from !in nodes {
        nodes := nodes[from := NewNode(from)];
      }
      if to !in nodes {
        nodes := nodes[to := NewNode(to)];
      }
      unvisited := unvisited + {from};
      unvisited := unvisited + {to};
      routes := routes + [Route(from, to, RouteCost)];
    }

    /** Loading the whole file, record by record. */
    method InitGraph(records: seq<Record>)
      requires Valid()
      modifies this
      ensures Valid()
      ensures Contents() == LoadAll(old(Contents()), records)
      ensures old(Loaded()) ==> Loaded()
    {
      ghost var start := Contents();
      ghost var wasLoaded := Loaded();
      var i := 0;
      while i < |records|
        invariant 0 <= i <= |records| && Valid()
        invariant wasLoaded ==> Loaded()
        invariant Contents() == LoadAll(start, records[..i])
      {
        assert records[..i + 1][..i] == records[..i];
        AddRecord(records[i].from, records[i].to);
        i := i + 1;
      }
      assert records[..i] == records;
    }

    /** Preparing the query: the start city gets distance 0 and a new queue
        holds it alone. A start city that is not in the map is reported
        instead of being looked up. */
    method InitQuery(start: string) returns (ok: bool, q: PrioQueue)
      requires Loaded()
      modifies this
      ensures fresh(q) && Valid()
      ensures routes == old(routes) && unvisited == old(unvisited)
      ensures ok <==> start in old(nodes)
      ensures ok ==> nodes == old(nodes)[start := old(nodes)[start].(value := Finite(0))]
      ensures ok ==> q.entries == [start] && QueryReady(routes, start, State(q))
      ensures !ok ==> nodes == old(nodes) && q.entries == []
    {
      q := new PrioQueue();
      ok := start in nodes;
      if ok {
        nodes := nodes[start := nodes[start].(value := Finite(0))];
        q.AddNodeWithPriority(start);
      }
    }

    /** One route out of the front city `u` (the body of the route loop). */
    method Relax(q: PrioQueue, u: string, route: Route)
      requires u in nodes && route.to in nodes && route.distance >= 0
      modifies this, q
      ensures routes == old(routes)
      ensures State(q) == RelaxRoute(old(State(q)), u, route)
    {
      if route.to !in unvisited {
        return;
      }
      var travelled := Plus(nodes[u].value, route.distance);
      if Less(travelled, nodes[route.to].value) {
        nodes := nodes[route.to := nodes[route.to].(value := travelled, previous := Some(u))];
      }
      if !q.HasLetter(route.to) {
        q.AddNodeWithPriority(route.to);
      }
    }

    /** One round of the relaxation loop: take the front city, relax every
        route out of it, mark it visited and drop it from the queue. */
    method ProcessFront(q: PrioQueue, ghost start: string, ghost level: nat) returns (u: string)
      requires Valid() && NonNegative(routes) && Inv(routes, start, State(q), level) && q.entries != []
      modifies this, q
      ensures Valid() && routes == old(routes)
      ensures u in old(unvisited) && unvisited == old(unvisited) - {u}
      ensures Known(old(nodes), u) && Inv(routes, start, State(q), old(nodes)[u].value.n)
      ensures Lowered(nodes, old(nodes))
      ensures forall v :: v in old(nodes) && v !in old(unvisited) ==> nodes[v] == old(nodes)[v]
      ensures nodes[u] == old(nodes)[u]
      ensures forall v :: v in old(nodes) && nodes[v] != old(nodes)[v] ==>
        nodes[v].previous == Some(u) && exists r :: r in Outgoing(routes, u) && r.to == v
      ensures forall v :: v in old(nodes) && nodes[v] != old(nodes)[v] ==> Less(nodes[v].value, old(nodes)[v].value)
    {
      u := q.First(nodes);
      var out := Outgoing(routes, u);
      StartStep(routes, start, State(q), level, u, out);
      var i := 0;
      while i < |out|
        invariant Valid() && routes == old(routes) && unvisited == old(unvisited)
        invariant StepInv(routes, start, State(q), u, out, i)
        invariant Lowered(nodes, old(nodes)) && nodes[u] == old(nodes)[u]
        invariant forall v :: v in old(nodes) && v !in old(unvisited) ==> nodes[v] == old(nodes)[v]
        invariant ImprovedVia(nodes, old(nodes), u, out, i)
      {
        ghost var was := State(q);
        RelaxStep(routes, start, was, u, out, i);
        Relax(q, u, out[i]);
        RelaxKeepsFront(routes, start, was, u, out[i]);
        ImprovedViaStep(nodes, was.nodes, old(nodes), u, out, i);
        LoweredTransitive(nodes, was.nodes, old(nodes));
        i := i + 1;
      }
      ghost var before := State(q);
      unvisited := unvisited - {u};
      q.RemoveFirst(u);
      FinishStep(routes, start, before, u, out, q.entries);
    }

    /** The relaxation loop: while the queue is not empty, process its front
        city. It ends with every distance a shortest-path length, having
        lowered distances only, and it runs once per reachable city. */
    method CheckNode(q: PrioQueue, ghost start: string) returns (ghost steps: nat)
      requires Valid() && NonNegative(routes) && QueryReady(routes, start, State(q))
      modifies this, q
      ensures Valid() && routes == old(routes)
      ensures Solved(routes, start, nodes, unvisited)
      ensures q.entries == []
      ensures Lowered(nodes, old(nodes))
      ensures steps == |old(unvisited)| - |unvisited| <= |nodes|
    {
      InitInv(routes, start, State(q));
      ghost var level: nat := 0;
      steps := 0;
      while q.Count() > 0
        invariant Valid() && routes == old(routes) && NonNegative(routes)
        invariant Inv(routes, start, State(q), level)
        invariant Lowered(nodes, old(nodes))
        invariant steps + |unvisited| == |old(unvisited)|
        decreases |unvisited|
      {
        ghost var pending := unvisited;
        ghost var was := nodes;
        var u := ProcessFront(q, start, level);
        assert pending == unvisited + {u} && u !in unvisited;
        LoweredTransitive(nodes, was, old(nodes));
        level := was[u].value.n;
        steps := steps + 1;
      }
      Finish(routes, start, State(q), level);
    }
  
    /** Walking the predecessor links back from `dest` until `start` is
        reached: the list starts at `dest`, ends at `start`, each city's
        predecessor follows it, and routes join them whose lengths add up to
        the distance of `dest`. */
    method CollectPredecessors(start: string, dest: string) returns (pathList: seq<string>, ghost legs: seq<Route>)
      requires Positive(routes) && SourceFixed(nodes, start) && PrevLinks(routes, start, nodes, true)
      requires Known(nodes, dest)
      ensures |pathList| >= 1 && pathList[0] == dest && pathList[|pathList| - 1] == start
      ensures dest == start ==> pathList == [dest]
      ensures forall i :: 0 <= i < |pathList| - 1 ==>
        pathList[i] in nodes && nodes[pathList[i]].previous == Some(pathList[i + 1])
      ensures IsPath(routes, start, legs, dest) && Weight(legs) == nodes[dest].value.n
      ensures |legs| == |pathList| - 1
      ensures forall i :: 0 <= i < |legs| ==>
        legs[i].from == pathList[|pathList| - 1 - i] && legs[i].to == pathList[|pathList| - 2 - i]
    {
      pathList := [dest];
      var current := dest;
      legs := [];
      while current != start
        invariant Known(nodes, current)
        invariant |pathList| >= 1 && pathList[0] == dest && pathList[|pathList| - 1] == current
        invariant forall i :: 0 <= i < |pathList| - 1 ==>
          pathList[i] in nodes && nodes[pathList[i]].previous == Some(pathList[i + 1])
        invariant IsPath(routes, current, legs, dest)
        invariant Weight(legs) + nodes[current].value.n == nodes[dest].value.n
        invariant |legs| == |pathList| - 1
        invariant forall i :: 0 <= i < |legs| ==>
          legs[i].from == pathList[|pathList| - 1 - i] && legs[i].to == pathList[|pathList| - 2 - i]
        decreases nodes[current].value.n
      {
        assert PrevLink(routes, nodes, current, true);
        var previous := nodes[current].previous.value;
        ghost var k :| 0 <= k < |routes| && routes[k].from == previous && routes[k].to == current &&
          nodes[previous].value.n + routes[k].distance == nodes[current].value.n;
        Prepend(routes, routes[k], legs, dest);
        legs := [routes[k]] + legs;
        pathList := pathList + [previous];
        current := previous;
      }
    }

    /** Path reconstruction: the predecessor walk reversed. The result names
        the cities of a shortest route from `start` to `dest`; an unknown or
        unreachable destination is reported instead of followed. */
    method ShortestPath(start: string, dest: string) returns (r: Result<seq<string>, PathError>)
      requires Valid() && Positive(routes) && Solved(routes, start, nodes, unvisited)
      ensures r == Failure(UnknownNode) <==> dest !in nodes
      ensures r == Failure(Unreachable) <==> dest in nodes && !Reachable(routes, start, dest)
      ensures r.Success? ==> ShortestRoute(routes, nodes, start, dest, r.value)
      ensures r.Success? && dest == start ==> r.value == [start]
    {
      if dest !in nodes {
        return Failure(UnknownNode);
      }
      if nodes[dest].value.Infinity? {
        return Failure(Unreachable);
      }
      var pathList, legs := CollectPredecessors(start, dest);
      var path := Reverse(pathList);
      assert IsShortest(routes, start, dest, nodes[dest].value.n);
      ReverseChain(routes, nodes, start, dest, pathList, legs);
      return Success(path);
    }

    /** One query as the program runs it: prepare the start city, run the
        relaxation loop, reconstruct the route and price the delivery. The
        route found is a shortest one, its length is one unit per flight,
        and `RouteLengthAndPrice` prices it at the leg cost per flight. */
    method FindRoute(start: string, dest: string, parcel: Parcel) returns (r: Result<Delivery, PathError>)
      requires Loaded()
      modifies this
      ensures routes == old(routes)
      ensures r == Failure(UnknownNode) <==> start !in old(nodes) || dest !in old(nodes)
      ensures r == Failure(Unreachable) <==>
        start in old(nodes) && dest in old(nodes) && !Reachable(routes, start, dest)
      ensures r.Success? ==>
        && ShortestRoute(routes, nodes, start, dest, r.value.path)
        && r.value.distance == nodes[dest].value.n == RouteCost * (|r.value.path| - 1)
        && r.value.cost == DeliveryCost(parcel, r.value.distance)
    {
      var ok, q := InitQuery(start);
      if !ok {
        return Failure(UnknownNode);
      }
      ghost var steps := CheckNode(q, start);
      var found := ShortestPath(start, dest);
      if found.Failure? {
        return Failure(found.error);
      }
      var path := found.value;
      var distance := nodes[dest].value.n;
      RouteLengthAndPrice(routes, nodes, start, dest, path, parcel);
      return Success(Delivery(path, distance, DeliveryCost(parcel, distance)));
    }
  }

  /** `legs` are routes joining the consecutive cities of `path`. */
  ghost predicate LegsOf(legs: seq<Route>, path: seq<string>)
  {
    |legs| == |path| - 1 &&
    forall i :: 0 <= i < |legs| ==> legs[i].from == path[i] && legs[i].to == path[i + 1]
  }

  /** `path` lists the cities of a shortest route from `start` to `dest`,
      each the predecessor of the next. */
  ghost predicate ShortestRoute(routes: seq<Route>, nodes: map<string, Node>, start: string, dest: string, path: seq<string>)
  {
    && |path| >= 1 && path[0] == start && path[|path| - 1] == dest
    && (forall i :: 0 < i < |path| ==> path[i] in nodes && nodes[path[i]].previous == Some(path[i - 1]))
    && dest in nodes && nodes[dest].value.Finite?
    && exists legs :: LegsOf(legs, path) && IsPath(routes, start, legs, dest) &&
         Weight(legs) == nodes[dest].value.n && IsShortest(routes, start, dest, Weight(legs))
  }

  /** Over the loader's routes, a shortest route of `k` flights has length
      `8 * k`, and its delivery costs the leg cost `k` times. */
  lemma RouteLengthAndPrice(routes: seq<Route>, nodes: map<string, Node>, start: string, dest: string,
                            path: seq<string>, parcel: Parcel)
    requires forall i :: 0 <= i < |routes| ==> routes[i].distance == RouteCost
    requires ShortestRoute(routes, nodes, start, dest, path)
    ensures nodes[dest].value.n == RouteCost * (|path| - 1)
    ensures DeliveryCost(parcel, nodes[dest].value.n) == ParcelCost(parcel) * (|path| - 1) as real
  {
    var legs :| LegsOf(legs, path) && IsPath(routes, start, legs, dest) && Weight(legs) == nodes[dest].value.n;
    UniformWeight(routes, RouteCost, start, legs, dest);
    var flights := |path| - 1;
    assert nodes[dest].value.n == flights * FlightUnit;
    DeliveryCostPerLeg(parcel, flights);
  }

  /** The list collected backwards from `dest`, reversed, is a shortest route. */
  lemma ReverseChain(routes: seq<Route>, nodes: map<string, Node>, start: string, dest: string,
                     pathList: seq<string>, legs: seq<Route>)
    requires dest in nodes && nodes[dest].value.Finite?
    requires |pathList| >= 1 && pathList[0] == dest && pathList[|pathList| - 1] == start
    requires forall i :: 0 <= i < |pathList| - 1 ==>
      pathList[i] in nodes && nodes[pathList[i]].previous == Some(pathList[i + 1])
    requires IsPath(routes, start, legs, dest) && Weight(legs) == nodes[dest].value.n
    requires IsShortest(routes, start, dest, nodes[dest].value.n)
    requires |legs| == |pathList| - 1
    requires forall i :: 0 <= i < |legs| ==>
      legs[i].from == pathList[|pathList| - 1 - i] && legs[i].to == pathList[|pathList| - 2 - i]
    ensures ShortestRoute(routes, nodes, start, dest, Reverse(pathList))
  {
    var path := Reverse(pathList);
    var n := |pathList|;
    forall i | 0 <= i < n ensures path[i] == pathList[n - 1 - i] {
      ReverseIndex(pathList, i);
    }
    forall i | 0 < i < n ensures path[i] in nodes && nodes[path[i]].previous == Some(path[i - 1]) {
      assert path[i] == pathList[n - 1 - i] && path[i - 1] == pathList[n - 1 - i + 1];
    }
    assert LegsOf(legs, path);
  }
}
