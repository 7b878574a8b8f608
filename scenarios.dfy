/** Two queries over a four-city graph: A-B, B-C and A-C, plus D-A. */
module Scenarios {
  import opened Wrappers
  import opened Routes
  import opened Paths
  import opened Nodes
  import opened Parcels
  import opened Costs
  import opened Planner

  /** A city other than the start is reached only through a route into it. */
  lemma EntryRoute(routes: seq<Route>, s: string, p: seq<Route>, t: string)
    requires IsPath(routes, s, p, t) && t != s
    ensures exists i :: 0 <= i < |routes| && routes[i].to == t
  {
    var k :| 0 <= k < |routes| && routes[k] == p[|p| - 1];
  }

  /** There is only one shortest distance. */
  lemma ShortestUnique(routes: seq<Route>, s: string, t: string, d: int, e: int)
    requires IsShortest(routes, s, t, d) && IsShortest(routes, s, t, e)
    ensures d == e
  {
    var p :| IsPath(routes, s, p, t) && Weight(p) == d;
    var q :| IsPath(routes, s, q, t) && Weight(q) == e;
  }

  /** Over the loader's routes, one direct route is a shortest path. */
  lemma DirectIsShortest(routes: seq<Route>, k: nat)
    requires k < |routes| && routes[k].from != routes[k].to
    requires forall i :: 0 <= i < |routes| ==> routes[i].distance == RouteCost
    ensures IsShortest(routes, routes[k].from, routes[k].to, RouteCost)
  {
    var r := routes[k];
    assert IsPath(routes, r.from, [], r.from);
    Extend(routes, r.from, [], r);
    assert [] + [r] == [r];
    forall p | IsPath(routes, r.from, p, r.to) ensures RouteCost <= Weight(p) {
      UniformWeight(routes, RouteCost, r.from, p, r.to);
    }
  }

  /** A shortest route to a city one direct flight away has exactly two cities. */
  lemma OneFlight(routes: seq<Route>, nodes: map<string, Node>, k: nat, path: seq<string>)
    requires k < |routes| && routes[k].from != routes[k].to
    requires forall i :: 0 <= i < |routes| ==> routes[i].distance == RouteCost
    requires ShortestRoute(routes, nodes, routes[k].from, routes[k].to, path)
    ensures path == [routes[k].from, routes[k].to] && nodes[routes[k].to].value.n == RouteCost
  {
    var r := routes[k];
    DirectIsShortest(routes, k);
    var legs :| LegsOf(legs, path) && IsPath(routes, r.from, legs, r.to) &&
      Weight(legs) == nodes[r.to].value.n && IsShortest(routes, r.from, r.to, Weight(legs));
    ShortestUnique(routes, r.from, r.to, Weight(legs), RouteCost);
    UniformWeight(routes, RouteCost, r.from, legs, r.to);
  }

  /** The sample graph, loaded record by record. */
  method Sample() returns (g: FlightGraph)
    ensures fresh(g) && g.Loaded()
    ensures g.routes == [Route("A", "B", 8), Route("B", "C", 8), Route("A", "C", 8), Route("D", "A", 8)]
    ensures g.nodes.Keys == {"A", "B", "C", "D"}
  {
    g := new FlightGraph();
    g.AddRecord("A", "B");
    g.AddRecord("B", "C");
    g.AddRecord("A", "C");
    g.AddRecord("D", "A");
  }

  /** From A, the direct flight to C beats the two flights through B: the
      query reports the route A, C of length 8. */
  method DirectFlightWins(parcel: Parcel) returns (r: Result<Delivery, PathError>)
    ensures r.Success? && r.value.path == ["A", "C"] && r.value.distance == 8
    ensures r.value.cost == ParcelCost(parcel)
  {
    var g := Sample();
    DirectIsShortest(g.routes, 2);
    assert Reachable(g.routes, "A", "C");
    assert "A" in g.nodes && "C" in g.nodes;
    r := g.FindRoute("A", "C", parcel);
    match r
    case Success(found) =>
      OneFlight(g.routes, g.nodes, 2, found.path);
      DeliveryCostPerLeg(parcel, 1);
    case Failure(UnknownNode) =>
      assert false;
    case Failure(Unreachable) =>
      assert false;
  }

  /** From A, city D is never reached: no route leads into it, and the query
      says so instead of following a missing predecessor. */
  method UnreachableCity(parcel: Parcel) returns (r: Result<Delivery, PathError>)
    ensures r == Failure(Unreachable)
  {
    var g := Sample();
    forall p | IsPath(g.routes, "A", p, "D") ensures false {
      EntryRoute(g.routes, "A", p, "D");
    }
    assert "A" in g.nodes && "D" in g.nodes;
    r := g.FindRoute("A", "D", parcel);
  }
}
