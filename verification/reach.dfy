/** The depth-first reachability check behind `Trip.noPath`: `explore` marks a
    country visited and recurses into every unvisited neighbour, in adjacency
    order. The visited array is modelled by the set of visited countries. */
module Reach {
  import opened Graph

  /** Every visited country is a country of the graph. */
  predicate Within(g: seq<seq<Edge>>, visited: set<nat>)
  {
    forall x :: x in visited ==> x < |g|
  }

  /** The countries not visited yet; exploring shrinks this set. */
  function Unvisited(g: seq<seq<Edge>>, visited: set<nat>): set<nat>
  {
    set x: nat | x < |g| && x !in visited
  }

  /** Every edge out of a newly visited country lands in `r`. */
  ghost predicate ClosedOver(g: seq<seq<Edge>>, visited: set<nat>, r: set<nat>)
    requires Within(g, r)
  {
    forall x, e :: x in r && x !in visited && e in g[x] ==> e.vrtx in r
  }

  /** `explore(v, visited)`: the visited set once the call returns. It only adds
      countries, every country it adds is reachable from `v`, and it leaves no
      edge out of an added country pointing outside the result. */
  function Explore(g: seq<seq<Edge>>, v: nat, visited: set<nat>): (r: set<nat>)
    requires WellFormed(g) && v < |g| && v !in visited && Within(g, visited)
    ensures visited + {v} <= r && Within(g, r)
    ensures forall x :: x in r && x !in visited ==> Reachable(g, v, x)
    ensures ClosedOver(g, visited, r)
    decreases Unvisited(g, visited), 0
  {
    assert v in Unvisited(g, visited) && v !in Unvisited(g, visited + {v});
    var r := ExploreEdges(g, v, 0, visited + {v});
    ReachableSelf(g, v);
    assert forall x, e :: x in r && x !in visited && e in g[x] ==> e.vrtx in r by {
      forall x, e | x in r && x !in visited && e in g[x]
        ensures e.vrtx in r
      {
        if x == v {
          var i :| 0 <= i < |g[v]| && g[v][i] == e;
        }
      }
    }
    r
  }

  /** The loop of `explore` over `v`'s adjacency list from its `j`-th node on:
      each neighbour not yet visited is explored in turn. */
  function ExploreEdges(g: seq<seq<Edge>>, v: nat, j: nat, visited: set<nat>): (r: set<nat>)
    requires WellFormed(g) && v < |g| && v in visited && j <= |g[v]| && Within(g, visited)
    ensures visited <= r && Within(g, r)
    ensures forall i :: j <= i < |g[v]| ==> g[v][i].vrtx in r
    ensures forall x :: x in r && x !in visited ==> Reachable(g, v, x)
    ensures ClosedOver(g, visited, r)
    decreases Unvisited(g, visited), 1, |g[v]| - j
  {
    if j == |g[v]| then visited
    else
      var e := g[v][j];
      assert e in g[v];
      if e.vrtx in visited then ExploreEdges(g, v, j + 1, visited)
      else
        var seen := Explore(g, e.vrtx, visited);
        assert Unvisited(g, seen) <= Unvisited(g, visited);
        var r := ExploreEdges(g, v, j + 1, seen);
        forall x | x in r && x !in visited
          ensures Reachable(g, v, x)
        {
          if x in seen {
            ReachablePrepend(g, v, e.vrtx, e.wght, x);
          }
        }
        r
  }

  lemma ReachableSelf(g: seq<seq<Edge>>, v: nat)
    requires v < |g|
    ensures Reachable(g, v, v)
  {
    assert IsWalk(g, [v], []);
  }

  /** `noPath(v0, v1)`: explore from `v0` with nothing visited, then test `v1`. */
  function NoPath(g: seq<seq<Edge>>, v0: nat, v1: nat): (r: bool)
    requires WellFormed(g) && v0 < |g| && v1 < |g|
    ensures r <==> !Reachable(g, v0, v1)
  {
    var seen := Explore(g, v0, {});
    if v1 in seen then false
    else
      assert !Reachable(g, v0, v1) by {
        if Reachable(g, v0, v1) {
          var vs, ws :| IsWalk(g, vs, ws) && vs[0] == v0 && vs[|vs| - 1] == v1;
          WalkStaysInside(g, seen, vs, ws);
        }
      }
      true
  }

  /** A walk that starts inside a set closed under edges never leaves it. */
  lemma {:induction false} WalkStaysInside(g: seq<seq<Edge>>, seen: set<nat>, vs: seq<nat>, ws: seq<nat>)
    requires Within(g, seen) && ClosedOver(g, {}, seen)
    requires IsWalk(g, vs, ws) && vs[0] in seen
    ensures vs[|vs| - 1] in seen
    decreases |ws|
  {
    if |ws| > 0 {
      WalkPrefix(g, vs, ws);
      WalkStaysInside(g, seen, vs[..|vs| - 1], ws[..|ws| - 1]);
      assert vs[..|vs| - 1][|vs| - 2] == vs[|vs| - 2];
    }
  }
}
