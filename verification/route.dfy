/** `Trip.path`: the shortest route between two countries as a list of legs.
    It answers with a single empty line when either name is unknown or no
    route exists; otherwise it runs Dijkstra from the first country, follows
    the predecessor links back from the second, and prints one leg per step,
    from the first country on. Asked for a country's route to itself, it
    throws. */
module Route {
  import opened Names
  import opened Distances
  import opened Graph
  import opened PriorityQueue
  import opened Dijkstra
  import opened Reach
  import opened Builder

  /** One line of the answer, `c0 --> c1 (d km.)`, with `d` from `Trip.Distance`. */
  datatype Leg = Leg(from: string, to: string, km: Lookup)

  /** The answer: the single empty line, the legs in travel order, or the
      `ArrayIndexOutOfBoundsException` that `path` throws when the unwinding of
      `prev` runs past the start. */
  datatype Route = NoRoute | Legs(legs: seq<Leg>) | OutOfBounds

  /** The leg from country `u` to country `v`, with the distance `Trip.Distance`
      finds for their names. */
  function LegFor(t: Trip, u: nat, v: nat): (l: Leg)
    requires t.Valid() && u < |t.countries| && v < |t.countries|
    ensures l.from == t.countries[u] && l.to == t.countries[v]
    ensures l.km == FindDistance(t.states, t.table, t.range, l.from, l.to)
  {
    var from, to := t.countries[u], t.countries[v];
    Leg(from, to, FindDistance(t.states, t.table, t.range, from, to))
  }

  /** The legs along the country sequence `vs`: one per consecutive pair. */
  function LegsAlong(t: Trip, vs: seq<nat>): (ls: seq<Leg>)
    requires t.Valid() && |vs| > 0
    requires forall k :: 0 <= k < |vs| ==> vs[k] < |t.countries|
    ensures |ls| == |vs| - 1
    ensures forall k :: 0 <= k < |ls| ==> ls[k] == LegFor(t, vs[k], vs[k + 1])
    decreases |vs|
  {
    if |vs| == 1 then []
    else
      var rest := LegsAlong(t, vs[1..]);
      assert forall k :: 0 < k < |vs| ==> vs[1..][k - 1] == vs[k];
      [LegFor(t, vs[0], vs[1])] + rest
  }

  /** `path(c1, c2)`. An unknown name gives no route, and so does a target the
      source cannot reach. The same country at both ends throws: `findMinPaths`
      leaves the start without a predecessor, so the unwinding steps to -1 and
      then reads `minPath[-1]`. Otherwise the legs chain from `c1` to `c2` along
      a walk of the graph (returned as `vs`, `ws`) that no other walk between
      the two countries undercuts, and on a graph whose nodes carry their
      looked-up distances every leg reports the weight of its step. */
  method Path(t: Trip, c1: string, c2: string, ghost maxW: nat)
    returns (route: Route, vs: seq<nat>, ghost ws: seq<nat>)
    requires t.Valid()
    requires Bounded(t.graph, maxW) && |t.graph| * maxW < IntMax
    ensures Index(t.countries, c1) < 0 || Index(t.countries, c2) < 0 ==> route == NoRoute
    ensures 0 <= Index(t.countries, c1) && 0 <= Index(t.countries, c2) ==>
              (route == NoRoute <==> !Reachable(t.graph, Index(t.countries, c1), Index(t.countries, c2)))
    ensures route == OutOfBounds <==> 0 <= Index(t.countries, c1) == Index(t.countries, c2)
    ensures route.Legs? ==>
              && |route.legs| > 0
              && route.legs[0].from == c1 && route.legs[|route.legs| - 1].to == c2
              && IsWalk(t.graph, vs, ws) && route.legs == LegsAlong(t, vs)
              && vs[0] == Index(t.countries, c1) && vs[|vs| - 1] == Index(t.countries, c2)
              && Optimal(t.graph, vs[0], vs[|vs| - 1], Sum(ws))
    ensures route.Legs? && Weighted(t.countries, t.states, t.table, t.range, t.graph) ==>
              forall k :: 0 <= k < |route.legs| ==> route.legs[k].km == Found(ws[k])
  {
    vs, ws := [], [];
    var v0 := Index(t.countries, c1);
    var v1 := Index(t.countries, c2);
    if v0 < 0 || v1 < 0 {
      return NoRoute, vs, ws;
    }
    if NoPath(t.graph, v0, v1) {
      return NoRoute, vs, ws;
    }
    if v0 == v1 {
      var dist, prev, rank := FindMinPaths(t.graph, v0, maxW);
      assert prev[v1] == -1;
      return OutOfBounds, vs, ws;
    }
    var legs;
    legs, vs, ws := Trace(t, v0, v1, maxW);
    route := Legs(legs);
  }

  /** The part of `path` after both checks: `findMinPaths(v0)`, the unwinding
      of `prev` from `v1`, and one leg per step of the route found. */
  method Trace(t: Trip, v0: nat, v1: nat, ghost maxW: nat)
    returns (legs: seq<Leg>, vs: seq<nat>, ghost ws: seq<nat>)
    requires t.Valid() && v0 < |t.graph| && v1 < |t.graph| && v0 != v1
    requires Bounded(t.graph, maxW) && |t.graph| * maxW < IntMax
    requires Reachable(t.graph, v0, v1)
    ensures |legs| > 0
    ensures legs[0].from == t.countries[v0] && legs[|legs| - 1].to == t.countries[v1]
    ensures IsWalk(t.graph, vs, ws) && legs == LegsAlong(t, vs)
    ensures vs[0] == v0 && vs[|vs| - 1] == v1 && Optimal(t.graph, v0, v1, Sum(ws))
    ensures Weighted(t.countries, t.states, t.table, t.range, t.graph) ==>
              forall k :: 0 <= k < |legs| ==> legs[k].km == Found(ws[k])
  {
    var dist, prev, rank := FindMinPaths(t.graph, v0, maxW);
    vs, ws := Unwind(t.graph, v0, v1, maxW, dist, prev, rank);
    legs := LegsAlong(t, vs);
    var n := |legs| - 1;
    assert legs[0] == LegFor(t, vs[0], vs[1]);
    assert legs[n] == LegFor(t, vs[n], vs[n + 1]) && n + 1 == |vs| - 1;
    if Weighted(t.countries, t.states, t.table, t.range, t.graph) {
      LegsWeighted(t, vs, ws);
    }
  }

  /** The do-while loop of `path` that follows `prev` back from `v1` to `v0`,
      collecting the countries passed (here in travel order). The steps are
      edges, so the countries form a walk, and its weight is `dist[v1]`, which
      no walk from `v0` to `v1` undercuts. The ranks of the countries passed
      fall strictly, so the loop ends. */
  method Unwind(g: seq<seq<Edge>>, v0: nat, v1: nat, ghost maxW: nat,
                dist: seq<int>, prev: seq<int>, ghost rank: seq<nat>)
    returns (vs: seq<nat>, ghost ws: seq<nat>)
    requires WellFormed(g) && v0 < |g| && v1 < |g| && v0 != v1
    requires Sizes(g, dist, prev, rank) && dist[v0] == 0
    requires dist[v1] < IntMax
    requires forall v {:trigger prev[v]} :: 0 <= v < |g| && v != v0 && dist[v] < IntMax ==>
               && 0 <= prev[v] < |g| && dist[prev[v]] < IntMax
               && dist[prev[v]] <= dist[v]
               && Edge(v, dist[v] - dist[prev[v]]) in g[prev[v]]
               && rank[prev[v]] < rank[v]
    ensures IsWalk(g, vs, ws) && vs[0] == v0 && vs[|vs| - 1] == v1
    ensures Sum(ws) == dist[v1]
  {
    var i := v1;
    vs, ws := [v1], [];
    while i != v0
      invariant 0 <= i < |g| && dist[i] < IntMax
      invariant IsWalk(g, vs, ws) && vs[0] == i && vs[|vs| - 1] == v1
      invariant Sum(ws) == dist[v1] - dist[i]
      decreases rank[i]
    {
      var p := prev[i];
      assert 0 <= p < |g| && dist[p] < IntMax && dist[p] <= dist[i];
      var w: nat := dist[i] - dist[p];
      assert Edge(vs[0], w) in g[p];
      WalkPrepend(g, p, w, vs, ws);
      ghost var before := Sum(ws);
      vs, ws := [p] + vs, [w] + ws;
      assert Sum(ws) == w + before;
      i := p;
    }
  }

  /** On a weighted graph each leg along a walk reports its step's weight. */
  lemma LegsWeighted(t: Trip, vs: seq<nat>, ws: seq<nat>)
    requires t.Valid() && IsWalk(t.graph, vs, ws)
    requires Weighted(t.countries, t.states, t.table, t.range, t.graph)
    ensures forall k :: 0 <= k < |vs| - 1 ==> LegsAlong(t, vs)[k].km == Found(ws[k])
  {
    forall k | 0 <= k < |vs| - 1
      ensures LegsAlong(t, vs)[k].km == Found(ws[k])
    {
      assert Edge(vs[k + 1], ws[k]) in t.graph[vs[k]];
    }
  }
}
