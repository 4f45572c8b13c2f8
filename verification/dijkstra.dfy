/** `Trip.findMinPaths`: Dijkstra's algorithm over the border graph, driven by
    the ordered queue of `PriorityQueue`. The result is, for every country, its
    distance from the start (`IntMax` when unreachable) and its predecessor on a
    shortest route (-1 for the start and for unreachable countries). */
module Dijkstra {
  import opened Graph
  import opened PriorityQueue

  /** Every edge weighs at most `maxW`. */
  ghost predicate Bounded(g: seq<seq<Edge>>, maxW: nat)
  {
    forall u, e :: 0 <= u < |g| && e in g[u] ==> e.wght <= maxW
  }

  /** No walk from `s` to `v` is shorter than `d`. */
  ghost predicate Optimal(g: seq<seq<Edge>>, s: nat, v: nat, d: int)
  {
    forall vs, ws :: IsWalk(g, vs, ws) && vs[0] == s && vs[|vs| - 1] == v ==> d <= Sum(ws)
  }

  ghost predicate Sizes(g: seq<seq<Edge>>, dist: seq<int>, prev: seq<int>, rank: seq<nat>)
  {
    |dist| == |g| && |prev| == |g| && |rank| == |g|
  }

  /** `prev[v]` is a settled country with an edge to `v` that accounts for `dist[v]`,
      and it was settled before `v`. */
  ghost predicate PrevOk(g: seq<seq<Edge>>, dist: seq<int>, prev: seq<int>, rank: seq<nat>,
                         done: set<nat>, v: nat)
    requires Sizes(g, dist, prev, rank) && v < |g|
  {
    && 0 <= prev[v] < |g|
    && prev[v] in done
    && dist[prev[v]] <= dist[v]
    && Edge(v, dist[v] - dist[prev[v]]) in g[prev[v]]
    && rank[prev[v]] < rank[v]
  }

  /** What every label means: finite distances are achieved by walks and bounded
      by `cap`, infinite ones have no predecessor, finite ones have a good one. */
  ghost predicate Labelled(g: seq<seq<Edge>>, s: nat, dist: seq<int>, prev: seq<int>,
                           rank: seq<nat>, done: set<nat>, cap: int)
    requires Sizes(g, dist, prev, rank)
  {
    && s < |g| && dist[s] == 0 && prev[s] == -1
    && (forall v :: 0 <= v < |g| ==> 0 <= dist[v] <= IntMax)
    && (forall v :: 0 <= v < |g| && dist[v] < IntMax ==> dist[v] <= cap && Achieves(g, s, v, dist[v]))
    && (forall v :: 0 <= v < |g| && dist[v] == IntMax ==> prev[v] == -1)
    && (forall v {:trigger prev[v]} :: 0 <= v < |g| && v != s && dist[v] < IntMax ==> PrevOk(g, dist, prev, rank, done, v))
  }

  /** The settled countries: finite, optimal, numbered in settling order below
      `k`, and no farther than any country still queued. */
  ghost predicate Settled(g: seq<seq<Edge>>, s: nat, maxW: nat, dist: seq<int>, rank: seq<nat>,
                          done: set<nat>, k: nat, cap: int)
    requires |dist| == |g| && |rank| == |g|
  {
    && (forall d :: d in done ==>
          d < |g| && dist[d] < IntMax && dist[d] + maxW <= cap && rank[d] < k && Optimal(g, s, d, dist[d]))
    && (forall v :: 0 <= v < |g| && v !in done ==> rank[v] == |g|)
    && (forall d, x :: d in done && 0 <= x < |g| && x !in done ==> d < |g| && dist[d] <= dist[x])
  }

  /** Every edge out of `d` has been relaxed. */
  ghost predicate RelaxedFrom(g: seq<seq<Edge>>, dist: seq<int>, d: nat)
    requires d < |g|
  {
    forall e :: e in g[d] ==> e.vrtx < |dist| && d < |dist| && dist[e.vrtx] <= dist[d] + e.wght
  }

  ghost predicate Relaxed(g: seq<seq<Edge>>, dist: seq<int>, done: set<nat>)
  {
    forall d :: d in done && d < |g| ==> RelaxedFrom(g, dist, d)
  }

  /** The queue holds exactly the unsettled countries, each with its current label. */
  ghost predicate Queued(g: seq<seq<Edge>>, dist: seq<int>, q: seq<Entry>, done: set<nat>)
  {
    && Sorted(q) && Distinct(q)
    && (forall v: nat :: v in Vertices(q) <==> v < |g| && v !in done)
    && (forall e :: e in q ==> e.vrtx < |dist| && e.dist == dist[e.vrtx])
  }

  /** The invariant of the `while (queue.isNotDone())` loop. */
  ghost predicate Inv(g: seq<seq<Edge>>, s: nat, maxW: nat, dist: seq<int>, prev: seq<int>,
                      rank: seq<nat>, done: set<nat>, cap: int, q: seq<Entry>)
  {
    && |q| <= |g| && Sizes(g, dist, prev, rank)
    && Labelled(g, s, dist, prev, rank, done, cap)
    && Settled(g, s, maxW, dist, rank, done, |g| - |q|, cap)
    && Relaxed(g, dist, done)
    && Queued(g, dist, q, done)
  }

  /** The invariant of the inner loop over the first `j` edges of the settled `u`. */
  ghost predicate Inner(g: seq<seq<Edge>>, s: nat, maxW: nat, u: nat, j: nat, dist: seq<int>,
                        prev: seq<int>, rank: seq<nat>, done: set<nat>, cap: int, q: seq<Entry>)
  {
    && |q| <= |g| && Sizes(g, dist, prev, rank)
    && u < |g| && u in done && j <= |g[u]| && cap < IntMax
    && Labelled(g, s, dist, prev, rank, done, cap)
    && Settled(g, s, maxW, dist, rank, done, |g| - |q|, cap)
    && Relaxed(g, dist, done - {u})
    && Queued(g, dist, q, done)
    && (forall d :: d in done ==> d < |g| && dist[d] <= dist[u])
    && (forall i :: 0 <= i < j ==> g[u][i].vrtx < |g| && dist[g[u][i].vrtx] <= dist[u] + g[u][i].wght)
  }

  /** `findMinPaths(s)`. Java's `int` addition `dist[u] + wght` never wraps here:
      the caller bounds the weights so that `|g| * maxW` fits below `IntMax`. */
  method FindMinPaths(g: seq<seq<Edge>>, s: nat, ghost maxW: nat)
    returns (dist: seq<int>, prev: seq<int>, ghost rank: seq<nat>)
    requires WellFormed(g) && s < |g|
    requires Bounded(g, maxW) && |g| * maxW < IntMax
    ensures Sizes(g, dist, prev, rank)
    ensures dist[s] == 0 && prev[s] == -1
    ensures forall v :: 0 <= v < |g| ==> 0 <= dist[v] <= IntMax
    ensures forall v :: 0 <= v < |g| ==> (dist[v] == IntMax <==> !Reachable(g, s, v))
    ensures forall v :: 0 <= v < |g| && dist[v] < IntMax ==>
              Achieves(g, s, v, dist[v]) && Optimal(g, s, v, dist[v])
    ensures forall v :: 0 <= v < |g| && dist[v] == IntMax ==> prev[v] == -1
    ensures forall v :: 0 <= v < |g| && v != s && dist[v] < IntMax ==>
              && 0 <= prev[v] < |g| && dist[prev[v]] < IntMax
              && dist[prev[v]] <= dist[v]
              && Edge(v, dist[v] - dist[prev[v]]) in g[prev[v]]
              && rank[prev[v]] < rank[v]
  {
    var q;
    dist, prev, q, rank := Initial(g, s, maxW);
    ghost var done, cap;
    ghost var caps := MakeCaps(|g|, maxW);
    dist, prev, q, rank, done, cap := Settle(g, s, maxW, dist, prev, q, rank, {}, 0, caps);
    Finish(g, s, maxW, dist, prev, rank, done, cap, q);
  }

  /** The main loop of `findMinPaths`: take the closest queued country off the
      queue and relax its edges, while the head of the queue has been reached.
      `cap` bounds every settled label and grows by `maxW` per settled country. */
  method Settle(g: seq<seq<Edge>>, s: nat, ghost maxW: nat, dist0: seq<int>, prev0: seq<int>,
                q0: seq<Entry>, ghost rank0: seq<nat>, ghost done0: set<nat>, ghost cap0: int,
                ghost caps: seq<int>)
    returns (dist: seq<int>, prev: seq<int>, q: seq<Entry>,
             ghost rank: seq<nat>, ghost done: set<nat>, ghost cap: int)
    requires WellFormed(g) && Bounded(g, maxW) && Caps(caps, |g|, maxW)
    requires |q0| <= |g| && cap0 == caps[|g| - |q0|]
    requires Inv(g, s, maxW, dist0, prev0, rank0, done0, cap0, q0)
    ensures Inv(g, s, maxW, dist, prev, rank, done, cap, q)
    ensures cap < IntMax && !IsNotDone(q)
  {
    dist, prev, q, rank, done := dist0, prev0, q0, rank0, done0;
    ghost var n: nat := |g| - |q|;
    cap := cap0;
    while IsNotDone(q)
      invariant |q| <= |g| && n == |g| - |q| && cap == caps[n]
      invariant Inv(g, s, maxW, dist, prev, rank, done, cap, q)
      decreases |q|
    {
      dist, prev, q, rank, done, cap := Step(g, s, maxW, dist, prev, q, rank, done, cap, n, caps);
      n := n + 1;
    }
    CapsBelow(caps, |g|, maxW, n);
  }

  /** One round of the main loop: settle the head `u` of the queue, then relax
      the edges out of `u`. */
  method Step(g: seq<seq<Edge>>, s: nat, ghost maxW: nat, dist0: seq<int>, prev0: seq<int>,
              q0: seq<Entry>, ghost rank0: seq<nat>, ghost done0: set<nat>, ghost cap0: int,
              ghost n: nat, ghost caps: seq<int>)
    returns (dist: seq<int>, prev: seq<int>, q: seq<Entry>,
             ghost rank: seq<nat>, ghost done: set<nat>, ghost cap: int)
    requires WellFormed(g) && Bounded(g, maxW) && Caps(caps, |g|, maxW)
    requires n == |g| - |q0| && cap0 == caps[n]
    requires Inv(g, s, maxW, dist0, prev0, rank0, done0, cap0, q0) && IsNotDone(q0)
    ensures |q| == |q0| - 1 && cap == caps[n + 1]
    ensures Inv(g, s, maxW, dist, prev, rank, done, cap, q)
  {
    var m := DeleteMin(q0);
    var u := m.0;
    rank, done := rank0[u := |g| - |q0|], done0 + {u};
    CapsBelow(caps, |g|, maxW, n + 1);
    cap := caps[n + 1];
    ExtractStep(g, s, maxW, dist0, prev0, rank0, done0, cap0, q0, u, rank, done, cap, m.1);
    dist, prev, q := RelaxEdges(g, s, maxW, u, dist0, prev0, m.1, done, rank, cap);
  }

  /** `caps[i]` is `i * maxW`, the bound on labels once `i` countries are settled;
      it is built once, so the main loop adds `maxW` rather than multiplying. */
  ghost predicate Caps(caps: seq<int>, N: nat, maxW: nat)
  {
    && |caps| == N + 1 && caps[0] == 0 && caps[N] < IntMax
    && forall i :: 0 <= i < N ==> caps[i + 1] == caps[i] + maxW
  }

  lemma MakeCaps(N: nat, maxW: nat) returns (caps: seq<int>)
    requires N * maxW < IntMax
    ensures Caps(caps, N, maxW)
  {
    caps := seq(N + 1, i => i * maxW);
    forall i | 0 <= i < N
      ensures caps[i + 1] == caps[i] + maxW
    {
      assert (i + 1) * maxW == i * maxW + maxW;
    }
  }

  lemma {:induction false} CapsBelow(caps: seq<int>, N: nat, maxW: nat, n: nat)
    requires Caps(caps, N, maxW) && n <= N
    ensures caps[n] < IntMax
    decreases N - n
  {
    if n < N {
      CapsBelow(caps, N, maxW, n + 1);
    }
  }

  /** The initial labels (`IntMax` and -1 everywhere, 0 at `s`) and the queue built
      by adding every country in order. */
  method Initial(g: seq<seq<Edge>>, s: nat, ghost maxW: nat)
    returns (dist: seq<int>, prev: seq<int>, q: seq<Entry>, ghost rank: seq<nat>)
    requires s < |g|
    ensures Inv(g, s, maxW, dist, prev, rank, {}, 0, q) && |q| == |g|
  {
    rank := seq(|g|, _ => |g|);
    dist := seq(|g|, _ => IntMax)[s := 0];
    prev := seq(|g|, _ => -1);
    InitialLabelled(g, s, dist, prev);
    q := QueueAll(dist);
  }

  lemma InitialLabelled(g: seq<seq<Edge>>, s: nat, dist: seq<int>, prev: seq<int>)
    requires s < |g|
    requires dist == seq(|g|, _ => IntMax)[s := 0] && prev == seq(|g|, _ => -1)
    ensures Sizes(g, dist, prev, seq(|g|, _ => |g|))
    ensures Labelled(g, s, dist, prev, seq(|g|, _ => |g|), {}, 0)
  {
    AchievesSelf(g, s);
    assert forall v :: 0 <= v < |g| && v != s ==> dist[v] == IntMax;
  }

  /** The loop `for v: queue.add(new qNode(v, dist[v]))`. */
  method QueueAll(dist: seq<int>) returns (q: seq<Entry>)
    ensures |q| == |dist| && Sorted(q) && Distinct(q)
    ensures forall v: nat :: v in Vertices(q) <==> v < |dist|
    ensures forall e :: e in q ==> e.vrtx < |dist| && e.dist == dist[e.vrtx]
  {
    q := [];
    var v := 0;
    while v < |dist|
      invariant v <= |dist| && |q| == v
      invariant Sorted(q) && Distinct(q)
      invariant forall x: nat :: x in Vertices(q) <==> x < v
      invariant forall e :: e in q ==> e.vrtx < v && e.dist == dist[e.vrtx]
    {
      DistinctAdd(q, Entry(v, dist[v]));
      q := Add(q, Entry(v, dist[v]));
      v := v + 1;
    }
  }

  /** Taking the head `u` off the queue settles it: `u` is optimal, because every
      walk to it leaves the settled set at a queued country no closer than `u`. */
  lemma ExtractStep(g: seq<seq<Edge>>, s: nat, maxW: nat, dist: seq<int>, prev: seq<int>,
                    rank: seq<nat>, done: set<nat>, cap: int, q: seq<Entry>,
                    u: nat, rank': seq<nat>, done': set<nat>, cap': int, q': seq<Entry>)
    requires WellFormed(g)
    requires Inv(g, s, maxW, dist, prev, rank, done, cap, q)
    requires IsNotDone(q) && u == q[0].vrtx && q' == q[1..]
    requires rank' == rank[u := |g| - |q|] && done' == done + {u}
    requires cap' == cap + maxW && cap' < IntMax
    ensures u < |g| && Inner(g, s, maxW, u, 0, dist, prev, rank', done', cap', q')
  {
    HeadClosest(g, s, maxW, dist, prev, rank, done, cap, q, u);
    assert forall x :: 0 <= x < |g| && x !in done ==> dist[u] <= dist[x];
    var k: nat := |g| - |q|;
    LabelledAfterExtract(g, s, maxW, dist, prev, rank, done, cap, u, k, rank', done', cap');
    ExtractQueued(g, dist, q, done, u, q', done');
    AddedThenRemoved(done, u, done');
    assert k + 1 == |g| - |q'|;
    AssembleInner(g, s, maxW, u, 0, dist, prev, rank', done', cap', q');
  }

  lemma AddedThenRemoved(done: set<nat>, u: nat, done': set<nat>)
    requires u !in done && done' == done + {u}
    ensures done' - {u} == done
  {
  }

  /** The head `u` of the queue is a queued country no farther than any other,
      nor closer than any settled one, and its label is optimal. */
  lemma HeadClosest(g: seq<seq<Edge>>, s: nat, maxW: nat, dist: seq<int>, prev: seq<int>,
                    rank: seq<nat>, done: set<nat>, cap: int, q: seq<Entry>, u: nat)
    requires Inv(g, s, maxW, dist, prev, rank, done, cap, q)
    requires IsNotDone(q) && u == q[0].vrtx
    ensures u < |g| && u !in done && dist[u] < IntMax
    ensures forall x :: 0 <= x < |g| && x !in done ==> dist[u] <= dist[x]
    ensures forall d :: d in done ==> d < |g| && dist[d] <= dist[u]
    ensures Optimal(g, s, u, dist[u])
  {
    assert q[0] in q;
    assert u in Vertices(q);
    forall x | 0 <= x < |g| && x !in done
      ensures dist[u] <= dist[x]
    {
      assert x in Vertices(q);
      var i :| 0 <= i < |q| && q[i].vrtx == x;
      assert q[i] in q;
    }
    forall vs, ws | IsWalk(g, vs, ws) && vs[0] == s && vs[|vs| - 1] == u
      ensures dist[u] <= Sum(ws)
    {
      Frontier(g, s, dist, done, u, vs, ws);
    }
  }

  lemma ExtractQueued(g: seq<seq<Edge>>, dist: seq<int>, q: seq<Entry>, done: set<nat>,
                      u: nat, q': seq<Entry>, done': set<nat>)
    requires Queued(g, dist, q, done) && |q| > 0 && u == q[0].vrtx
    requires q' == q[1..] && done' == done + {u}
    ensures Queued(g, dist, q', done')
  {
    var r := DeleteMin(q);
    assert forall e :: e in q[1..] ==> e in q;
  }

  lemma LabelledAfterExtract(g: seq<seq<Edge>>, s: nat, maxW: nat, dist: seq<int>, prev: seq<int>,
                             rank: seq<nat>, done: set<nat>, cap: int, u: nat, k: nat,
                             rank': seq<nat>, done': set<nat>, cap': int)
    requires Sizes(g, dist, prev, rank) && u < |g| && u !in done
    requires Labelled(g, s, dist, prev, rank, done, cap)
    requires Settled(g, s, maxW, dist, rank, done, k, cap)
    requires dist[u] < IntMax
    requires forall x :: 0 <= x < |g| && x !in done ==> dist[u] <= dist[x]
    requires Optimal(g, s, u, dist[u])
    requires rank' == rank[u := k] && done' == done + {u} && cap' == cap + maxW
    ensures Sizes(g, dist, prev, rank')
    ensures Labelled(g, s, dist, prev, rank', done', cap')
    ensures Settled(g, s, maxW, dist, rank', done', k + 1, cap')
  {
    forall v | 0 <= v < |g| && v != s && dist[v] < IntMax
      ensures PrevOk(g, dist, prev, rank', done', v)
    {
      assert PrevOk(g, dist, prev, rank, done, v);
    }
  }

  /** Along any walk from `s`: either the walk has reached a queued country, where
      `u` is already no farther than the walk, or it ends at a settled country whose
      label is no longer than the walk. */
  lemma {:induction false} Frontier(g: seq<seq<Edge>>, s: nat, dist: seq<int>, done: set<nat>, u: nat,
                                    vs: seq<nat>, ws: seq<nat>)
    requires |dist| == |g| && s < |g| && dist[s] == 0 && u < |g| && u !in done
    requires forall x :: 0 <= x < |g| && x !in done ==> dist[u] <= dist[x]
    requires Relaxed(g, dist, done)
    requires IsWalk(g, vs, ws) && vs[0] == s
    ensures dist[u] <= Sum(ws) || (vs[|vs| - 1] in done && dist[vs[|vs| - 1]] <= Sum(ws))
    decreases |ws|
  {
    if |ws| > 0 {
      var vs', ws' := vs[..|vs| - 1], ws[..|ws| - 1];
      WalkPrefix(g, vs, ws);
      Frontier(g, s, dist, done, u, vs', ws');
      var x, y := vs'[|vs'| - 1], vs[|vs| - 1];
      if x in done && dist[x] <= Sum(ws') {
        assert RelaxedFrom(g, dist, x);
        assert Edge(y, ws[|ws| - 1]) in g[x];
      }
    }
  }

  /** The inner `for` over the edges of `u`: lowers every neighbour's label that
      `u` improves, recording `u` as its predecessor and moving it in the queue. */
  /** One pass of the inner loop: the `j`-th edge out of `u` lowers its target's
      label, its predecessor and its queue priority when it gives a shorter
      walk, and changes nothing otherwise. */
  method RelaxOne(g: seq<seq<Edge>>, s: nat, ghost maxW: nat, u: nat, j: nat,
                  dist0: seq<int>, prev0: seq<int>, q0: seq<Entry>,
                  ghost done: set<nat>, ghost rank: seq<nat>, ghost cap: int)
    returns (dist: seq<int>, prev: seq<int>, q: seq<Entry>)
    requires WellFormed(g) && Bounded(g, maxW)
    requires Inner(g, s, maxW, u, j, dist0, prev0, rank, done, cap, q0) && j < |g[u]|
    ensures |q| == |q0| && Inner(g, s, maxW, u, j + 1, dist, prev, rank, done, cap, q)
  {
    var e := g[u][j];
    assert e in g[u];
    var v := e.vrtx;
    var nd := dist0[u] + e.wght;
    if nd < dist0[v] {
      assert v in Vertices(q0);
      dist, prev, q := dist0[v := nd], prev0[v := u], Decrease(q0, v, nd);
      RelaxStep(g, s, maxW, u, j, dist0, prev0, rank, done, cap, q0, v, nd, dist, prev, q);
    } else {
      SkipStep(g, s, maxW, u, j, dist0, prev0, rank, done, cap, q0);
      dist, prev, q := dist0, prev0, q0;
    }
  }

  method RelaxEdges(g: seq<seq<Edge>>, s: nat, ghost maxW: nat, u: nat,
                    dist0: seq<int>, prev0: seq<int>, q0: seq<Entry>,
                    ghost done: set<nat>, ghost rank: seq<nat>, ghost cap: int)
    returns (dist: seq<int>, prev: seq<int>, q: seq<Entry>)
    requires WellFormed(g) && Bounded(g, maxW)
    requires Inner(g, s, maxW, u, 0, dist0, prev0, rank, done, cap, q0)
    ensures |q| == |q0| && Inv(g, s, maxW, dist, prev, rank, done, cap, q)
  {
    dist, prev, q := dist0, prev0, q0;
    var j := 0;
    while j < |g[u]|
      invariant |q| == |q0| && Inner(g, s, maxW, u, j, dist, prev, rank, done, cap, q)
    {
      dist, prev, q := RelaxOne(g, s, maxW, u, j, dist, prev, q, done, rank, cap);
      j := j + 1;
    }
    InnerDone(g, s, maxW, u, dist, prev, rank, done, cap, q);
  }

  /** An edge that does not improve its target's label is relaxed already. */
  lemma SkipStep(g: seq<seq<Edge>>, s: nat, maxW: nat, u: nat, j: nat, dist: seq<int>,
                 prev: seq<int>, rank: seq<nat>, done: set<nat>, cap: int, q: seq<Entry>)
    requires WellFormed(g)
    requires Inner(g, s, maxW, u, j, dist, prev, rank, done, cap, q) && j < |g[u]|
    requires g[u][j].vrtx < |dist| && dist[g[u][j].vrtx] <= dist[u] + g[u][j].wght
    ensures Inner(g, s, maxW, u, j + 1, dist, prev, rank, done, cap, q)
  {
  }

  /** After the last edge of `u`, all edges out of settled countries are relaxed. */
  lemma InnerDone(g: seq<seq<Edge>>, s: nat, maxW: nat, u: nat, dist: seq<int>,
                  prev: seq<int>, rank: seq<nat>, done: set<nat>, cap: int, q: seq<Entry>)
    requires u < |g| && Inner(g, s, maxW, u, |g[u]|, dist, prev, rank, done, cap, q)
    ensures Inv(g, s, maxW, dist, prev, rank, done, cap, q)
  {
    forall d | d in done && d < |g|
      ensures RelaxedFrom(g, dist, d)
    {
      if d == u {
        forall e | e in g[u]
          ensures e.vrtx < |dist| && dist[e.vrtx] <= dist[u] + e.wght
        {
          var i :| 0 <= i < |g[u]| && g[u][i] == e;
        }
      } else {
        assert d in done - {u};
      }
    }
  }

  /** An edge that improves its target's label: setting the new label, making
      `u` the predecessor and lowering the queue priority to match keeps the
      inner invariant. */
  lemma RelaxStep(g: seq<seq<Edge>>, s: nat, maxW: nat, u: nat, j: nat, dist: seq<int>,
                  prev: seq<int>, rank: seq<nat>, done: set<nat>, cap: int, q: seq<Entry>,
                  v: nat, nd: int, dist': seq<int>, prev': seq<int>, q': seq<Entry>)
    requires WellFormed(g) && Bounded(g, maxW)
    requires Inner(g, s, maxW, u, j, dist, prev, rank, done, cap, q) && j < |g[u]|
    requires v == g[u][j].vrtx && nd == dist[u] + g[u][j].wght
    requires v < |dist| && nd < dist[v] && v in Vertices(q)
    requires dist' == dist[v := nd] && prev' == prev[v := u] && q' == Decrease(q, v, nd)
    ensures Inner(g, s, maxW, u, j + 1, dist', prev', rank, done, cap, q')
  {
    var e := g[u][j];
    assert e in g[u];
    assert v !in done;
    RelaxLabels(g, s, maxW, u, dist, prev, done, rank, cap, e, v, nd, dist', prev');
    RelaxQueued(g, dist, q, done, v, nd, dist', q');
    RelaxSettled(g, s, maxW, u, dist, rank, done, |g| - |q'|, cap, v, nd, dist');
    RelaxRest(g, u, j, dist, done, v, nd, dist');
    AssembleInner(g, s, maxW, u, j + 1, dist', prev', rank, done, cap, q');
  }

  lemma AssembleInner(g: seq<seq<Edge>>, s: nat, maxW: nat, u: nat, j: nat, dist: seq<int>,
                      prev: seq<int>, rank: seq<nat>, done: set<nat>, cap: int, q: seq<Entry>)
    requires |q| <= |g| && Sizes(g, dist, prev, rank)
    requires u < |g| && u in done && j <= |g[u]| && cap < IntMax
    requires Labelled(g, s, dist, prev, rank, done, cap)
    requires Settled(g, s, maxW, dist, rank, done, |g| - |q|, cap)
    requires Relaxed(g, dist, done - {u})
    requires Queued(g, dist, q, done)
    requires forall d :: d in done ==> d < |g| && dist[d] <= dist[u]
    requires forall i :: 0 <= i < j ==> g[u][i].vrtx < |g| && dist[g[u][i].vrtx] <= dist[u] + g[u][i].wght
    ensures Inner(g, s, maxW, u, j, dist, prev, rank, done, cap, q)
  {
  }

  lemma RelaxRest(g: seq<seq<Edge>>, u: nat, j: nat, dist: seq<int>, done: set<nat>, v: nat, nd: int,
                  dist': seq<int>)
    requires |dist| == |g| && u < |g| && j < |g[u]| && v < |g| && u in done && v !in done
    requires v == g[u][j].vrtx && nd == dist[u] + g[u][j].wght && nd < dist[v]
    requires Relaxed(g, dist, done - {u})
    requires forall d :: d in done ==> d < |g| && dist[d] <= dist[u]
    requires forall i :: 0 <= i < j ==> g[u][i].vrtx < |g| && dist[g[u][i].vrtx] <= dist[u] + g[u][i].wght
    requires dist' == dist[v := nd]
    ensures Relaxed(g, dist', done - {u})
    ensures forall d :: d in done ==> d < |g| && dist'[d] <= dist'[u]
    ensures forall i :: 0 <= i < j + 1 ==>
              g[u][i].vrtx < |g| && dist'[g[u][i].vrtx] <= dist'[u] + g[u][i].wght
  {
    forall d | d in done - {u} && d < |g|
      ensures RelaxedFrom(g, dist', d)
    {
      assert RelaxedFrom(g, dist, d);
    }
  }

  lemma RelaxLabels(g: seq<seq<Edge>>, s: nat, maxW: nat, u: nat,
                    dist: seq<int>, prev: seq<int>, done: set<nat>, rank: seq<nat>, cap: int,
                    e: Edge, v: nat, nd: int, dist': seq<int>, prev': seq<int>)
    requires WellFormed(g) && Bounded(g, maxW)
    requires Sizes(g, dist, prev, rank) && u < |g| && u in done && e in g[u]
    requires Labelled(g, s, dist, prev, rank, done, cap)
    requires dist[u] < IntMax && dist[u] + maxW <= cap < IntMax && rank[u] < |g|
    requires v == e.vrtx && nd == dist[u] + e.wght
    requires v !in done && rank[v] == |g| && nd < dist[v]
    requires dist' == dist[v := nd] && prev' == prev[v := u]
    ensures Sizes(g, dist', prev', rank)
    ensures Labelled(g, s, dist', prev', rank, done, cap)
  {
    RelaxBounds(g, s, maxW, u, dist, prev, done, rank, cap, e, v, nd, dist', prev');
    RelaxPrev(g, s, u, dist, prev, done, rank, cap, e, v, nd, dist', prev');
  }

  /** The new label of `v` is finite, within `cap`, achieved by a walk through `u`. */
  lemma RelaxBounds(g: seq<seq<Edge>>, s: nat, maxW: nat, u: nat,
                    dist: seq<int>, prev: seq<int>, done: set<nat>, rank: seq<nat>, cap: int,
                    e: Edge, v: nat, nd: int, dist': seq<int>, prev': seq<int>)
    requires WellFormed(g) && Bounded(g, maxW)
    requires Sizes(g, dist, prev, rank) && u < |g| && e in g[u]
    requires Labelled(g, s, dist, prev, rank, done, cap)
    requires dist[u] < IntMax && dist[u] + maxW <= cap < IntMax
    requires v == e.vrtx && nd == dist[u] + e.wght && nd < dist[v]
    requires dist' == dist[v := nd] && prev' == prev[v := u]
    ensures forall x :: 0 <= x < |g| ==> 0 <= dist'[x] <= IntMax
    ensures forall x :: 0 <= x < |g| && dist'[x] < IntMax ==>
              dist'[x] <= cap && Achieves(g, s, x, dist'[x])
    ensures forall x :: 0 <= x < |g| && dist'[x] == IntMax ==> prev'[x] == -1
  {
    AchievesStep(g, s, u, dist[u], v, e.wght);
  }

  /** `u` is a good predecessor of `v`, and every other predecessor is untouched. */
  lemma RelaxPrev(g: seq<seq<Edge>>, s: nat, u: nat,
                  dist: seq<int>, prev: seq<int>, done: set<nat>, rank: seq<nat>, cap: int,
                  e: Edge, v: nat, nd: int, dist': seq<int>, prev': seq<int>)
    requires WellFormed(g)
    requires Sizes(g, dist, prev, rank) && u < |g| && u in done && e in g[u]
    requires Labelled(g, s, dist, prev, rank, done, cap)
    requires dist[u] < IntMax && rank[u] < |g|
    requires v == e.vrtx && nd == dist[u] + e.wght
    requires v !in done && rank[v] == |g| && nd < dist[v]
    requires dist' == dist[v := nd] && prev' == prev[v := u]
    ensures Sizes(g, dist', prev', rank)
    ensures forall x :: 0 <= x < |g| && x != s && dist'[x] < IntMax ==>
              PrevOk(g, dist', prev', rank, done, x)
  {
    assert PrevOk(g, dist', prev', rank, done, v) by {
      assert Edge(v, dist'[v] - dist'[prev'[v]]) == e;
    }
    forall x | 0 <= x < |g| && x != s && dist'[x] < IntMax && x != v
      ensures PrevOk(g, dist', prev', rank, done, x)
    {
      assert PrevOk(g, dist, prev, rank, done, x);
    }
  }


  lemma RelaxSettled(g: seq<seq<Edge>>, s: nat, maxW: nat, u: nat,
                     dist: seq<int>, rank: seq<nat>, done: set<nat>, k: nat, cap: int,
                     v: nat, nd: int, dist': seq<int>)
    requires |dist| == |g| && |rank| == |g| && u in done
    requires Settled(g, s, maxW, dist, rank, done, k, cap)
    requires v < |g| && v !in done
    requires forall d :: d in done ==> d < |g| && dist[d] <= dist[u]
    requires dist[u] <= nd && dist' == dist[v := nd]
    ensures Settled(g, s, maxW, dist', rank, done, k, cap)
  {
  }

  lemma RelaxQueued(g: seq<seq<Edge>>, dist: seq<int>, q: seq<Entry>, done: set<nat>, v: nat, nd: int,
                    dist': seq<int>, q': seq<Entry>)
    requires Queued(g, dist, q, done) && v in Vertices(q) && v < |dist|
    requires dist' == dist[v := nd] && q' == Decrease(q, v, nd)
    ensures Queued(g, dist', q', done) && |q'| == |q|
  {
    forall f | f in q'
      ensures f.vrtx < |dist'| && f.dist == dist'[f.vrtx]
    {
    }
  }

  /** When the queue runs out of reached countries: the settled countries are
      exactly the reachable ones, and every label says so. */
  lemma Finish(g: seq<seq<Edge>>, s: nat, maxW: nat, dist: seq<int>, prev: seq<int>,
               rank: seq<nat>, done: set<nat>, cap: int, q: seq<Entry>)
    requires WellFormed(g) && Bounded(g, maxW)
    requires Inv(g, s, maxW, dist, prev, rank, done, cap, q)
    requires cap < IntMax && !IsNotDone(q)
    ensures Sizes(g, dist, prev, rank)
    ensures dist[s] == 0 && prev[s] == -1
    ensures forall v :: 0 <= v < |g| ==> 0 <= dist[v] <= IntMax
    ensures forall v :: 0 <= v < |g| ==> (dist[v] == IntMax <==> !Reachable(g, s, v))
    ensures forall v :: 0 <= v < |g| && dist[v] < IntMax ==>
              Achieves(g, s, v, dist[v]) && Optimal(g, s, v, dist[v])
    ensures forall v :: 0 <= v < |g| && dist[v] == IntMax ==> prev[v] == -1
    ensures forall v :: 0 <= v < |g| && v != s && dist[v] < IntMax ==>
              && 0 <= prev[v] < |g| && dist[prev[v]] < IntMax
              && dist[prev[v]] <= dist[v]
              && Edge(v, dist[v] - dist[prev[v]]) in g[prev[v]]
              && rank[prev[v]] < rank[v]
  {
    // every country still queued is unreached
    forall x | 0 <= x < |g| && x !in done
      ensures dist[x] == IntMax
    {
      assert x in Vertices(q);
      var i :| 0 <= i < |q| && q[i].vrtx == x;
      assert q[i] in q;
    }
    forall v | 0 <= v < |g|
      ensures dist[v] == IntMax <==> !Reachable(g, s, v)
    {
      if dist[v] == IntMax {
        if Reachable(g, s, v) {
          var vs, ws :| IsWalk(g, vs, ws) && vs[0] == s && vs[|vs| - 1] == v;
          Escape(g, s, maxW, dist, done, cap, vs, ws);
        }
      } else {
        assert Achieves(g, s, v, dist[v]);
      }
    }
    forall v | 0 <= v < |g| && v != s && dist[v] < IntMax
      ensures dist[prev[v]] < IntMax
    {
      assert PrevOk(g, dist, prev, rank, done, v);
    }
  }

  /** Once every queued country is unreached, no walk from `s` leaves the settled
      set: its first step out would follow a relaxed edge and give a finite label. */
  lemma {:induction false} Escape(g: seq<seq<Edge>>, s: nat, maxW: nat, dist: seq<int>, done: set<nat>,
                                  cap: int, vs: seq<nat>, ws: seq<nat>)
    requires WellFormed(g) && Bounded(g, maxW) && |dist| == |g| && s < |g| && dist[s] == 0
    requires cap < IntMax
    requires forall d :: d in done ==> d < |g| && dist[d] + maxW <= cap
    requires forall x :: 0 <= x < |g| && x !in done ==> dist[x] == IntMax
    requires Relaxed(g, dist, done)
    requires IsWalk(g, vs, ws) && vs[0] == s
    ensures vs[|vs| - 1] in done
    decreases |ws|
  {
    if |ws| > 0 {
      var vs', ws' := vs[..|vs| - 1], ws[..|ws| - 1];
      WalkPrefix(g, vs, ws);
      Escape(g, s, maxW, dist, done, cap, vs', ws');
      var x, y := vs'[|vs'| - 1], vs[|vs| - 1];
      var e := Edge(y, ws[|ws| - 1]);
      assert e in g[x];
      assert RelaxedFrom(g, dist, x);
    }
  }
}
