/** The relaxation algorithm's state, the invariant it keeps and the proof
    that, when the queue runs dry, every city holds its shortest distance. */
module Dijkstra {
  import opened Wrappers
  import opened Routes
  import opened Paths
  import opened Nodes
  import opened Queues

  /** The engine's mutable state: the city map, the unvisited set and the queue. */
  datatype Snapshot = Snapshot(nodes: map<string, Node>, unvisited: set<string>, queue: seq<string>)

  /** Both ends of every route are cities of the map. */
  ghost predicate RoutesWithin(routes: seq<Route>, nodes: map<string, Node>)
  {
    forall i :: 0 <= i < |routes| ==> routes[i].from in nodes && routes[i].to in nodes
  }

  ghost predicate Known(nodes: map<string, Node>, v: string)
  {
    v in nodes && nodes[v].value.Finite?
  }

  /** One route out of the front city `u`: a route into a visited city is
      skipped; otherwise the target's distance and predecessor change only
      when the way through `u` is strictly shorter, and the target joins the
      queue unless it is already there. */
  function RelaxRoute(st: Snapshot, u: string, r: Route): (st': Snapshot)
    requires u in st.nodes && r.to in st.nodes && r.distance >= 0
    ensures st'.nodes.Keys == st.nodes.Keys && st'.unvisited == st.unvisited
    ensures r.to !in st.unvisited ==> st' == st
    ensures forall v :: v in st.nodes ==> st'.nodes[v].name == st.nodes[v].name
    ensures forall v :: v in st.nodes ==> AtMost(st'.nodes[v].value, st.nodes[v].value)
    ensures forall v :: v in st.nodes && st'.nodes[v] != st.nodes[v] ==>
      && v == r.to
      && Less(Plus(st.nodes[u].value, r.distance), st.nodes[v].value)
      && st'.nodes[v].value == Plus(st.nodes[u].value, r.distance)
      && st'.nodes[v].previous == Some(u)
    ensures st'.queue == st.queue || (r.to !in st.queue && st'.queue == st.queue + [r.to])
    ensures r.to in st.unvisited ==> r.to in st'.queue
  {
    if r.to !in st.unvisited then st
    else
      var travelled := Plus(st.nodes[u].value, r.distance);
      var nodes :=
        if Less(travelled, st.nodes[r.to].value)
        then st.nodes[r.to := st.nodes[r.to].(value := travelled, previous := Some(u))]
        else st.nodes;
      var queue := if r.to in st.queue then st.queue else st.queue + [r.to];
      Snapshot(nodes, st.unvisited, queue)
  }

  /** The start city keeps distance 0 and no predecessor. */
  ghost predicate SourceFixed(nodes: map<string, Node>, s: string)
  {
    s in nodes && nodes[s].value == Finite(0) && nodes[s].previous == None
  }

  /** The queue holds, once each, exactly the unvisited cities with a known distance. */
  ghost predicate QueueExact(st: Snapshot)
  {
    && NoDuplicates(st.queue)
    && forall v :: v in st.queue <==> v in st.unvisited && Known(st.nodes, v)
  }

  /** A visited city's distance is known and no path undercuts it. */
  ghost predicate VisitedFinal(routes: seq<Route>, s: string, st: Snapshot)
  {
    forall v :: v in st.nodes && v !in st.unvisited ==>
      st.nodes[v].value.Finite? && LowerBound(routes, s, v, st.nodes[v].value.n)
  }

  /** Every route out of a visited city has been relaxed. */
  ghost predicate VisitedRelaxed(routes: seq<Route>, st: Snapshot)
  {
    forall i :: 0 <= i < |routes| && Known(st.nodes, routes[i].from) && routes[i].from !in st.unvisited ==>
      Known(st.nodes, routes[i].to) &&
      st.nodes[routes[i].to].value.n <= st.nodes[routes[i].from].value.n + routes[i].distance
  }

  /** Visited cities are no farther than `level`, queued ones no nearer. */
  ghost predicate Ordered(st: Snapshot, level: nat)
  {
    && (forall v :: v in st.nodes && v !in st.unvisited ==> Known(st.nodes, v) && st.nodes[v].value.n <= level)
    && (forall y :: y in st.queue ==> Known(st.nodes, y) && level <= st.nodes[y].value.n)
  }

  /** The predecessor of `v` is a known city with a route into `v` whose
      length, added to the predecessor's distance, is at most (`tight`: exactly)
      the distance of `v`. */
  ghost predicate PrevLink(routes: seq<Route>, nodes: map<string, Node>, v: string, tight: bool)
    requires Known(nodes, v)
  {
    && nodes[v].previous.Some?
    && Known(nodes, nodes[v].previous.value)
    && exists i :: 0 <= i < |routes| && routes[i].from == nodes[v].previous.value && routes[i].to == v &&
         var through := nodes[nodes[v].previous.value].value.n + routes[i].distance;
         if tight then through == nodes[v].value.n else through <= nodes[v].value.n
  }

  ghost predicate PrevLinks(routes: seq<Route>, s: string, nodes: map<string, Node>, tight: bool)
  {
    forall v :: Known(nodes, v) && v != s ==> PrevLink(routes, nodes, v, tight)
  }

  /** Every known distance is the length of some path from the start. */
  ghost predicate Realized(routes: seq<Route>, s: string, nodes: map<string, Node>)
  {
    forall v :: Known(nodes, v) ==> exists p :: IsPath(routes, s, p, v) && Weight(p) == nodes[v].value.n
  }

  /** What holds between two steps of the loop; `level` is the distance of the
      city processed last. */
  ghost predicate Inv(routes: seq<Route>, s: string, st: Snapshot, level: nat)
  {
    && RoutesWithin(routes, st.nodes)
    && SourceFixed(st.nodes, s)
    && st.unvisited <= st.nodes.Keys
    && QueueExact(st)
    && VisitedFinal(routes, s, st)
    && VisitedRelaxed(routes, st)
    && Ordered(st, level)
    && PrevLinks(routes, s, st.nodes, false)
    && Realized(routes, s, st.nodes)
  }

  /** What holds while the routes out of the front city `u` are relaxed, the
      first `done` of them (`out`) already handled. */
  ghost predicate StepInv(routes: seq<Route>, s: string, st: Snapshot, u: string, out: seq<Route>, done: nat)
  {
    && RoutesWithin(routes, st.nodes)
    && SourceFixed(st.nodes, s)
    && st.unvisited <= st.nodes.Keys
    && QueueExact(st)
    && VisitedFinal(routes, s, st)
    && VisitedRelaxed(routes, st)
    && PrevLinks(routes, s, st.nodes, false)
    && Realized(routes, s, st.nodes)
    && u in st.unvisited && Known(st.nodes, u)
    && LowerBound(routes, s, u, st.nodes[u].value.n)
    && Ordered(st, st.nodes[u].value.n)
    && done <= |out|
    && (forall r :: r in out ==> r in routes && r.from == u)
    && forall j :: 0 <= j < done ==>
         out[j].to in st.nodes &&
         (out[j].to in st.unvisited ==>
            Known(st.nodes, out[j].to) &&
            st.nodes[out[j].to].value.n <= st.nodes[u].value.n + out[j].distance)
  }

  /** The state the query starts the loop in: every city unvisited and
      unreached but the start, which is at 0 and alone in the queue. */
  ghost predicate QueryReady(routes: seq<Route>, s: string, st: Snapshot)
  {
    && RoutesWithin(routes, st.nodes)
    && s in st.nodes && st.nodes[s].value == Finite(0)
    && (forall v :: v in st.nodes && v != s ==> st.nodes[v].value == Infinity)
    && (forall v :: v in st.nodes ==> st.nodes[v].previous == None)
    && st.unvisited == st.nodes.Keys
    && st.queue == [s]
  }

  /** The outcome of the loop: distances are shortest-path lengths, a city has
      one exactly when it is reachable, exactly the unreachable cities stay
      unvisited, and predecessors lie on shortest paths. */
  ghost predicate Solved(routes: seq<Route>, s: string, nodes: map<string, Node>, unvisited: set<string>)
  {
    && RoutesWithin(routes, nodes)
    && SourceFixed(nodes, s)
    && (forall v :: v in nodes ==> (Reachable(routes, s, v) <==> nodes[v].value.Finite?))
    && (forall v :: Known(nodes, v) ==> IsShortest(routes, s, v, nodes[v].value.n))
    && (forall v :: v in nodes ==> (v in unvisited <==> !Reachable(routes, s, v)))
    && PrevLinks(routes, s, nodes, true)
  }

  /** The invariant holds when the loop starts. */
  lemma InitInv(routes: seq<Route>, s: string, st: Snapshot)
    requires QueryReady(routes, s, st)
    ensures Inv(routes, s, st, 0)
  {
    assert IsPath(routes, s, [], s) && Weight([]) == 0;
  }

  /** A path from the start to an unvisited city passes a queued city no
      farther than the path's own length. */
  lemma {:induction false} FrontierBound(routes: seq<Route>, s: string, st: Snapshot, level: nat,
                                         p: seq<Route>, t: string) returns (y: string)
    requires NonNegative(routes) && Inv(routes, s, st, level)
    requires IsPath(routes, s, p, t) && t in st.unvisited
    ensures y in st.queue && Known(st.nodes, y) && st.nodes[y].value.n <= Weight(p)
    decreases |p|
  {
    if p == [] {
      y := s;
    } else {
      var init, last := p[..|p| - 1], p[|p| - 1];
      var k :| 0 <= k < |routes| && routes[k] == last;
      if last.from in st.unvisited {
        y := FrontierBound(routes, s, st, level, init, last.from);
      } else {
        assert IsPath(routes, s, init, last.from);
        y := t;
      }
    }
  }

  /** Picking the front city `u` (least distance in the queue) starts a step:
      nothing shorter than its distance leads to it. */
  lemma StartStep(routes: seq<Route>, s: string, st: Snapshot, level: nat, u: string, out: seq<Route>)
    requires NonNegative(routes) && Inv(routes, s, st, level)
    requires u in st.queue && forall y :: y in st.queue ==> AtMost(st.nodes[u].value, st.nodes[y].value)
    requires out == Outgoing(routes, u)
    ensures StepInv(routes, s, st, u, out, 0)
  {
    assert Known(st.nodes, u);
    forall y | y in st.queue ensures st.nodes[u].value.n <= st.nodes[y].value.n {
      assert Known(st.nodes, y);
    }
    forall p | IsPath(routes, s, p, u) ensures st.nodes[u].value.n <= Weight(p) {
      var y := FrontierBound(routes, s, st, level, p, u);
    }
  }

  /** Relaxing the next route out of `u` keeps the step's invariant. */
  lemma RelaxStep(routes: seq<Route>, s: string, st: Snapshot, u: string, out: seq<Route>, done: nat)
    requires NonNegative(routes) && StepInv(routes, s, st, u, out, done) && done < |out|
    ensures StepInv(routes, s, RelaxRoute(st, u, out[done]), u, out, done + 1)
  {
    var r := out[done];
    assert r in routes && r.from == u;
    var k :| 0 <= k < |routes| && routes[k] == r;
    var st' := RelaxRoute(st, u, r);
    var du := st.nodes[u].value.n;
    RelaxKeepsFront(routes, s, st, u, r);
    RelaxKeepsQueue(st, u, r);
    RelaxKeepsVisited(routes, s, st, u, r);
    RelaxKeepsOrder(st, u, r, du);
    RelaxKeepsLinks(routes, s, st, u, r);
    RelaxKeepsRealized(routes, s, st, u, r);
    RelaxKeepsProgress(st, u, r, out, done);
  }

  /** The front city and the start city keep their distances. */
  lemma RelaxKeepsFront(routes: seq<Route>, s: string, st: Snapshot, u: string, r: Route)
    requires r.distance >= 0 && r.to in st.nodes && SourceFixed(st.nodes, s) && Known(st.nodes, u)
    ensures SourceFixed(RelaxRoute(st, u, r).nodes, s)
    ensures RelaxRoute(st, u, r).nodes[u] == st.nodes[u]
  {
  }

  /** The queue stays duplicate-free and exactly the unvisited known cities. */
  lemma RelaxKeepsQueue(st: Snapshot, u: string, r: Route)
    requires r.distance >= 0 && r.to in st.nodes && Known(st.nodes, u)
    requires st.unvisited <= st.nodes.Keys && QueueExact(st)
    ensures QueueExact(RelaxRoute(st, u, r))
  {
    var st' := RelaxRoute(st, u, r);
    if r.to in st.unvisited {
      assert Known(st'.nodes, r.to);
      forall v ensures v in st'.queue <==> v in st'.unvisited && Known(st'.nodes, v) {
        if v != r.to && v in st.nodes {
          assert st'.nodes[v] == st.nodes[v];
        }
      }
      if st'.queue != st.queue {
        assert st'.queue == st.queue + [r.to] && r.to !in st.queue;
        forall i, j | 0 <= i < j < |st'.queue| ensures st'.queue[i] != st'.queue[j] {
          if j == |st.queue| {
            assert st'.queue[i] in st.queue;
          }
        }
      }
    }
  }

  /** Visited cities are untouched, so their distances stay final, and the
      routes out of them stay relaxed. */
  lemma RelaxKeepsVisited(routes: seq<Route>, s: string, st: Snapshot, u: string, r: Route)
    requires r.distance >= 0 && r.to in st.nodes && Known(st.nodes, u) && u in st.unvisited
    requires VisitedFinal(routes, s, st) && VisitedRelaxed(routes, st)
    ensures VisitedFinal(routes, s, RelaxRoute(st, u, r)) && VisitedRelaxed(routes, RelaxRoute(st, u, r))
  {
    var st' := RelaxRoute(st, u, r);
    forall i | 0 <= i < |routes| && Known(st'.nodes, routes[i].from) && routes[i].from !in st'.unvisited
      ensures Known(st'.nodes, routes[i].to)
      ensures st'.nodes[routes[i].to].value.n <= st'.nodes[routes[i].from].value.n + routes[i].distance
    {
      assert st'.nodes[routes[i].from] == st.nodes[routes[i].from];
      assert AtMost(st'.nodes[routes[i].to].value, st.nodes[routes[i].to].value);
    }
  }

  /** Relaxed distances are at least the front city's, so the order holds. */
  lemma RelaxKeepsOrder(st: Snapshot, u: string, r: Route, du: nat)
    requires r.distance >= 0 && r.to in st.nodes && Known(st.nodes, u) && st.nodes[u].value.n == du
    requires st.unvisited <= st.nodes.Keys && u in st.unvisited && QueueExact(st) && Ordered(st, du)
    ensures Ordered(RelaxRoute(st, u, r), du)
  {
    var st' := RelaxRoute(st, u, r);
    forall y | y in st'.queue ensures Known(st'.nodes, y) && du <= st'.nodes[y].value.n {
      if y == r.to && st'.nodes[y] != st.nodes[y] {
      } else {
        assert Known(st.nodes, y);
      }
    }
  }

  /** The routes out of `u` handled so far stay relaxed, and so does the next one. */
  lemma RelaxKeepsProgress(st: Snapshot, u: string, r: Route, out: seq<Route>, done: nat)
    requires r.distance >= 0 && r.to in st.nodes && Known(st.nodes, u) && done < |out| && out[done] == r
    requires forall j :: 0 <= j < done ==>
         out[j].to in st.nodes &&
         (out[j].to in st.unvisited ==>
            Known(st.nodes, out[j].to) &&
            st.nodes[out[j].to].value.n <= st.nodes[u].value.n + out[j].distance)
    requires st.unvisited <= st.nodes.Keys && QueueExact(st) && u in st.unvisited
    ensures var st' := RelaxRoute(st, u, r);
      forall j :: 0 <= j < done + 1 ==>
         out[j].to in st'.nodes &&
         (out[j].to in st'.unvisited ==>
            Known(st'.nodes, out[j].to) &&
            st'.nodes[out[j].to].value.n <= st'.nodes[u].value.n + out[j].distance)
  {
    var st' := RelaxRoute(st, u, r);
    RelaxKeepsQueue(st, u, r);
    assert st'.nodes[u] == st.nodes[u] by {
      if u == r.to {
        assert !Less(Plus(st.nodes[u].value, r.distance), st.nodes[u].value);
      }
    }
    forall j | 0 <= j < done + 1 && out[j].to in st'.unvisited
      ensures Known(st'.nodes, out[j].to)
      ensures st'.nodes[out[j].to].value.n <= st'.nodes[u].value.n + out[j].distance
    {
      assert AtMost(st'.nodes[out[j].to].value, st.nodes[out[j].to].value);
    }
  }

  /** Relaxation keeps the (non-tight) predecessor links. */
  lemma RelaxKeepsLinks(routes: seq<Route>, s: string, st: Snapshot, u: string, r: Route)
    requires NonNegative(routes) && RoutesWithin(routes, st.nodes) && SourceFixed(st.nodes, s)
    requires r in routes && r.from == u && Known(st.nodes, u)
    requires PrevLinks(routes, s, st.nodes, false)
    ensures PrevLinks(routes, s, RelaxRoute(st, u, r).nodes, false)
  {
    var st' := RelaxRoute(st, u, r);
    forall v | Known(st'.nodes, v) && v != s ensures PrevLink(routes, st'.nodes, v, false) {
      if st'.nodes[v] != st.nodes[v] {
        var k :| 0 <= k < |routes| && routes[k] == r;
        assert st'.nodes[u] == st.nodes[u];
      } else {
        assert PrevLink(routes, st.nodes, v, false);
        var pv := st.nodes[v].previous.value;
        var k :| 0 <= k < |routes| && routes[k].from == pv && routes[k].to == v &&
          st.nodes[pv].value.n + routes[k].distance <= st.nodes[v].value.n;
        assert AtMost(st'.nodes[pv].value, st.nodes[pv].value);
      }
    }
  }

  /** Relaxation keeps every known distance realized by a path. */
  lemma RelaxKeepsRealized(routes: seq<Route>, s: string, st: Snapshot, u: string, r: Route)
    requires NonNegative(routes) && RoutesWithin(routes, st.nodes)
    requires r in routes && r.from == u && Known(st.nodes, u)
    requires Realized(routes, s, st.nodes)
    ensures Realized(routes, s, RelaxRoute(st, u, r).nodes)
  {
    var st' := RelaxRoute(st, u, r);
    forall v | Known(st'.nodes, v)
      ensures exists p :: IsPath(routes, s, p, v) && Weight(p) == st'.nodes[v].value.n
    {
      if st'.nodes[v] != st.nodes[v] {
        var p :| IsPath(routes, s, p, u) && Weight(p) == st.nodes[u].value.n;
        Extend(routes, s, p, r);
      } else {
        assert Known(st.nodes, v);
      }
    }
  }

  /** Once every route out of `u` is relaxed, marking `u` visited and taking
      it off the queue restores the loop invariant at `u`'s distance. */
  lemma FinishStep(routes: seq<Route>, s: string, st: Snapshot, u: string, out: seq<Route>, queue: seq<string>)
    requires NonNegative(routes) && StepInv(routes, s, st, u, out, |out|)
    requires out == Outgoing(routes, u)
    requires NoDuplicates(queue) && forall x :: x in queue <==> x in st.queue && x != u
    ensures Inv(routes, s, Snapshot(st.nodes, st.unvisited - {u}, queue), st.nodes[u].value.n)
  {
    var st' := Snapshot(st.nodes, st.unvisited - {u}, queue);
    var du := st.nodes[u].value.n;
    forall i | 0 <= i < |routes| && Known(st'.nodes, routes[i].from) && routes[i].from !in st'.unvisited
      ensures Known(st'.nodes, routes[i].to)
      ensures st'.nodes[routes[i].to].value.n <= st'.nodes[routes[i].from].value.n + routes[i].distance
    {
      if routes[i].from == u {
        assert routes[i] in out;
        var j :| 0 <= j < |out| && out[j] == routes[i];
        if routes[i].to !in st.unvisited {
          assert Known(st.nodes, routes[i].to) && st.nodes[routes[i].to].value.n <= du;
        }
      }
    }
  }

  /** When the queue is empty the invariant yields the solved state. */
  lemma Finish(routes: seq<Route>, s: string, st: Snapshot, level: nat)
    requires NonNegative(routes) && Inv(routes, s, st, level) && st.queue == []
    ensures Solved(routes, s, st.nodes, st.unvisited)
  {
    forall v | v in st.nodes && Reachable(routes, s, v) ensures v !in st.unvisited {
      var p :| IsPath(routes, s, p, v);
      if v in st.unvisited {
        var y := FrontierBound(routes, s, st, level, p, v);
      }
    }
    forall v | Known(st.nodes, v) ensures Reachable(routes, s, v) && v !in st.unvisited {
      var p :| IsPath(routes, s, p, v) && Weight(p) == st.nodes[v].value.n;
    }
    forall v | Known(st.nodes, v) && v != s ensures PrevLink(routes, st.nodes, v, true) {
      assert PrevLink(routes, st.nodes, v, false);
      var pv := st.nodes[v].previous.value;
      var k :| 0 <= k < |routes| && routes[k].from == pv && routes[k].to == v &&
        st.nodes[pv].value.n + routes[k].distance <= st.nodes[v].value.n;
      var p :| IsPath(routes, s, p, pv) && Weight(p) == st.nodes[pv].value.n;
      Extend(routes, s, p, routes[k]);
    }
  }

  /** `nodes'` holds the same cities as `nodes`, none of them farther away. */
  ghost predicate Lowered(nodes': map<string, Node>, nodes: map<string, Node>)
  {
    nodes'.Keys == nodes.Keys && forall v :: v in nodes ==> AtMost(nodes'[v].value, nodes[v].value)
  }

  /** Every city whose record differs between `nodes` and `nodes'` got
      strictly closer, has `u` as predecessor, and is entered by one of the
      first `n` routes of `out`. */
  ghost predicate ImprovedVia(nodes': map<string, Node>, nodes: map<string, Node>, u: string, out: seq<Route>, n: nat)
  {
    forall v :: v in nodes && v in nodes' && nodes'[v] != nodes[v] ==>
      && nodes'[v].previous == Some(u)
      && Less(nodes'[v].value, nodes[v].value)
      && exists j :: 0 <= j < n && j < |out| && out[j].to == v
  }

  /** One more relaxation, through route `n` of `out`, keeps `ImprovedVia`
      with respect to the state the round started from. */
  lemma ImprovedViaStep(after: map<string, Node>, mid: map<string, Node>, start: map<string, Node>,
                        u: string, out: seq<Route>, n: nat)
    requires ImprovedVia(mid, start, u, out, n) && Lowered(mid, start) && n < |out|
    requires after.Keys == mid.Keys
    requires forall v :: v in mid && after[v] != mid[v] ==>
      v == out[n].to && after[v].previous == Some(u) && Less(after[v].value, mid[v].value)
    ensures ImprovedVia(after, start, u, out, n + 1)
  {
    forall v | v in start && v in after && after[v] != start[v]
      ensures after[v].previous == Some(u) && Less(after[v].value, start[v].value)
      ensures exists j :: 0 <= j < n + 1 && j < |out| && out[j].to == v
    {
      if after[v] != mid[v] {
        assert out[n].to == v;
        assert AtMost(mid[v].value, start[v].value);
      }
    }
  }

  lemma LoweredTransitive(a: map<string, Node>, b: map<string, Node>, c: map<string, Node>)
    requires Lowered(a, b) && Lowered(b, c)
    ensures Lowered(a, c)
  {
    forall v | v in c ensures AtMost(a[v].value, c[v].value) {
      assert AtMost(a[v].value, b[v].value) && AtMost(b[v].value, c[v].value);
    }
  }
}
