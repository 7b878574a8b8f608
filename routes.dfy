/** A directed, weighted flight leg between two cities (Route.cs). */
module Routes {

  /** The three properties of a route are fixed at construction: a datatype value
      cannot be updated in place, which is what the private setters promise.
      The distance is an unrestricted integer because the constructor does not
      check its sign; non-negativity comes only from the loader's constant. */
  datatype Route = Route(from: string, to: string, distance: int)

  /** Every route is at least as long as zero. */
  ghost predicate NonNegative(routes: seq<Route>)
  {
    forall i :: 0 <= i < |routes| ==> routes[i].distance >= 0
  }

  /** Every route is strictly longer than zero. */
  ghost predicate Positive(routes: seq<Route>)
  {
    forall i :: 0 <= i < |routes| ==> routes[i].distance > 0
  }

  /** The routes leaving `city`, in list order (the `FindAll` query of the engine). */
  function Outgoing(routes: seq<Route>, city: string): (out: seq<Route>)
    ensures |out| <= |routes|
    ensures forall r :: r in out <==> r in routes && r.from == city
  {
    if routes == [] then []
    else
      var rest := Outgoing(routes[1..], city);
      assert forall r :: r in routes <==> r == routes[0] || r in routes[1..];
      if routes[0].from == city then [routes[0]] + rest else rest
  }
}
