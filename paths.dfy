/** Paths through the route list and their lengths: the yardstick the engine's
    distances are measured against. */
module Paths {
  import opened Routes

  /** `p` is a chain of listed routes that leads from `source` to `target`. */
  ghost predicate IsPath(routes: seq<Route>, source: string, p: seq<Route>, target: string)
    decreases |p|
  {
    if p == [] then target == source
    else
      var last := p[|p| - 1];
      last in routes && last.to == target && IsPath(routes, source, p[..|p| - 1], last.from)
  }

  /** The summed distance of a chain of routes. */
  function Weight(p: seq<Route>): int
  {
    if p == [] then 0 else Weight(p[..|p| - 1]) + p[|p| - 1].distance
  }

  ghost predicate Reachable(routes: seq<Route>, source: string, target: string)
  {
    exists p :: IsPath(routes, source, p, target)
  }

  /** No path from `source` to `target` is shorter than `d`. */
  ghost predicate LowerBound(routes: seq<Route>, source: string, target: string, d: int)
  {
    forall p :: IsPath(routes, source, p, target) ==> d <= Weight(p)
  }

  /** `d` is the length of a shortest path from `source` to `target`. */
  ghost predicate IsShortest(routes: seq<Route>, source: string, target: string, d: int)
  {
    && (exists p :: IsPath(routes, source, p, target) && Weight(p) == d)
    && LowerBound(routes, source, target, d)
  }

  /** Extending a path by one listed route at its end. */
  lemma Extend(routes: seq<Route>, source: string, p: seq<Route>, r: Route)
    requires IsPath(routes, source, p, r.from) && r in routes
    ensures IsPath(routes, source, p + [r], r.to)
    ensures Weight(p + [r]) == Weight(p) + r.distance
  {
    assert (p + [r])[..|p|] == p;
  }

  /** Putting one listed route in front of a path. */
  lemma {:induction false} Prepend(routes: seq<Route>, r: Route, p: seq<Route>, target: string)
    requires r in routes && IsPath(routes, r.to, p, target)
    ensures IsPath(routes, r.from, [r] + p, target)
    ensures Weight([r] + p) == r.distance + Weight(p)
    decreases |p|
  {
    if p == [] {
      assert [r] + p == [r];
      assert [r][..0] == [];
    } else {
      var init := p[..|p| - 1];
      var last := p[|p| - 1];
      Prepend(routes, r, init, last.from);
      assert ([r] + p)[..|p|] == [r] + init;
      assert ([r] + p)[|p|] == last;
    }
  }
}
