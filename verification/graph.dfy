/** The weighted graph the engine builds: one adjacency list of `gNode`s per
    country, kept in ascending `vrtx` order by `AdjList.add`; and the walks
    through it that reachability and shortest distances talk about. */
module Graph {
  import Search

  /** A `gNode`: the neighbour's country index and the capital distance to it. */
  datatype Edge = Edge(vrtx: nat, wght: nat)

  /** Every edge points at a country of the graph. */
  predicate WellFormed(g: seq<seq<Edge>>)
  {
    forall u, e :: 0 <= u < |g| && e in g[u] ==> e.vrtx < |g|
  }

  predicate SortedByVrtx(l: seq<Edge>)
  {
    forall i, j :: 0 <= i < j < |l| ==> l[i].vrtx <= l[j].vrtx
  }

  predicate StrictlySortedByVrtx(l: seq<Edge>)
  {
    forall i, j :: 0 <= i < j < |l| ==> l[i].vrtx < l[j].vrtx
  }

  /** The test `r.vrtx < q.vrtx` that keeps the middle-insertion walk going, negated. */
  function VrtxAtOrAbove(v: nat): Edge -> bool
  {
    (e: Edge) => v <= e.vrtx
  }

  /** `AdjList.add`: insert at the front when `e` is below the head, at the back
      when the tail is below `e`, and otherwise before the first node after the
      head whose `vrtx` is not below `e`'s. On a one-node list holding `e.vrtx`
      already, the program dereferences a null link; that call is excluded. */
  function Insert(l: seq<Edge>, e: Edge): (r: seq<Edge>)
    requires !(|l| == 1 && l[0].vrtx == e.vrtx)
    ensures exists k :: 0 <= k <= |l| && r == l[..k] + [e] + l[k..]
    ensures multiset(r) == multiset(l) + multiset{e}
    ensures SortedByVrtx(l) ==> SortedByVrtx(r)
    ensures StrictlySortedByVrtx(l) && (forall f :: f in l ==> f.vrtx != e.vrtx)
            ==> StrictlySortedByVrtx(r)
  {
    var k := Slot(l, e);
    InsertAt(l, e, k);
    l[..k] + [e] + l[k..]
  }

  /** Where `AdjList.add` links `e` in: before the head, after the tail, or
      in front of the first later node whose `vrtx` is not below `e.vrtx`. */
  function Slot(l: seq<Edge>, e: Edge): (k: nat)
    requires !(|l| == 1 && l[0].vrtx == e.vrtx)
    ensures k <= |l|
    ensures k == 0 || l[k - 1].vrtx <= e.vrtx
    ensures k == |l| || e.vrtx <= l[k].vrtx
  {
    if |l| == 0 then 0
    else if e.vrtx < l[0].vrtx then 0
    else if l[|l| - 1].vrtx < e.vrtx then |l|
    else
      var k := Search.Scan(l, VrtxAtOrAbove(e.vrtx), 1, |l|);
      assert |l| > 1;
      assert !(k == |l|) || !VrtxAtOrAbove(e.vrtx)(l[|l| - 1]);
      k
  }

  /** Putting `e` between a node at or below it and a node at or above it keeps order. */
  lemma InsertAt(l: seq<Edge>, e: Edge, k: nat)
    requires k <= |l|
    requires k == 0 || l[k - 1].vrtx <= e.vrtx
    requires k == |l| || e.vrtx <= l[k].vrtx
    ensures multiset(l[..k] + [e] + l[k..]) == multiset(l) + multiset{e}
    ensures SortedByVrtx(l) ==> SortedByVrtx(l[..k] + [e] + l[k..])
    ensures StrictlySortedByVrtx(l) && (forall f :: f in l ==> f.vrtx != e.vrtx)
            ==> StrictlySortedByVrtx(l[..k] + [e] + l[k..])
  {
    InsertAtMultiset(l, e, k);
    if SortedByVrtx(l) {
      InsertAtSorted(l, e, k, false);
    }
    if StrictlySortedByVrtx(l) && (forall f :: f in l ==> f.vrtx != e.vrtx) {
      if 0 < k {
        assert l[k - 1] in l;
      }
      if k < |l| {
        assert l[k] in l;
      }
      InsertAtSorted(l, e, k, true);
    }
  }

  lemma InsertAtMultiset(l: seq<Edge>, e: Edge, k: nat)
    requires k <= |l|
    ensures multiset(l[..k] + [e] + l[k..]) == multiset(l) + multiset{e}
  {
    assert l == l[..k] + l[k..];
  }

  /** The order argument of `InsertAt`, non-strict or strict. */
  lemma InsertAtSorted(l: seq<Edge>, e: Edge, k: nat, strict: bool)
    requires k <= |l|
    requires k == 0 || (if strict then l[k - 1].vrtx < e.vrtx else l[k - 1].vrtx <= e.vrtx)
    requires k == |l| || (if strict then e.vrtx < l[k].vrtx else e.vrtx <= l[k].vrtx)
    requires if strict then StrictlySortedByVrtx(l) else SortedByVrtx(l)
    ensures if strict then StrictlySortedByVrtx(l[..k] + [e] + l[k..])
            else SortedByVrtx(l[..k] + [e] + l[k..])
  {
    var r := l[..k] + [e] + l[k..];
    assert forall i :: 0 <= i < k ==> r[i] == l[i];
    assert forall i :: k < i < |r| ==> r[i] == l[i - 1];
    forall i, j | 0 <= i < j < |r|
      ensures if strict then r[i].vrtx < r[j].vrtx else r[i].vrtx <= r[j].vrtx
    {
      if i < k && k < j {
        assert l[i].vrtx <= l[k - 1].vrtx;
      } else if i < k && j == k {
        assert l[i].vrtx <= l[k - 1].vrtx;
      } else if i == k && k < j {
        assert l[k].vrtx <= l[j - 1].vrtx;
      }
    }
  }

  // ---------------------------------------------------------------------
  // Walks

  /** `vs` is a walk through `g` whose i-th step takes an edge of weight `ws[i]`. */
  ghost predicate IsWalk(g: seq<seq<Edge>>, vs: seq<nat>, ws: seq<nat>)
  {
    && |vs| == |ws| + 1
    && (forall i :: 0 <= i < |vs| ==> vs[i] < |g|)
    && (forall i :: 0 <= i < |ws| ==> Edge(vs[i + 1], ws[i]) in g[vs[i]])
  }

  /** Total weight of a walk. */
  function Sum(ws: seq<nat>): nat
  {
    if |ws| == 0 then 0 else Sum(ws[..|ws| - 1]) + ws[|ws| - 1]
  }

  /** Some walk from `s` to `v` weighs exactly `d`. */
  ghost predicate Achieves(g: seq<seq<Edge>>, s: nat, v: nat, d: int)
  {
    exists vs, ws :: IsWalk(g, vs, ws) && vs[0] == s && vs[|vs| - 1] == v && Sum(ws) == d
  }

  /** Some walk leads from `s` to `v`. */
  ghost predicate Reachable(g: seq<seq<Edge>>, s: nat, v: nat)
  {
    exists vs, ws :: IsWalk(g, vs, ws) && vs[0] == s && vs[|vs| - 1] == v
  }

  lemma SumAppend(ws: seq<nat>, w: nat)
    ensures Sum(ws + [w]) == Sum(ws) + w
  {
    assert (ws + [w])[..|ws|] == ws;
  }

  /** A walk extended by one edge out of its last vertex is a walk. */
  lemma WalkExtend(g: seq<seq<Edge>>, vs: seq<nat>, ws: seq<nat>, v: nat, w: nat)
    requires IsWalk(g, vs, ws)
    requires v < |g| && Edge(v, w) in g[vs[|vs| - 1]]
    ensures IsWalk(g, vs + [v], ws + [w])
    ensures Sum(ws + [w]) == Sum(ws) + w
  {
    SumAppend(ws, w);
    var vs', ws' := vs + [v], ws + [w];
    forall i | 0 <= i < |ws'|
      ensures Edge(vs'[i + 1], ws'[i]) in g[vs'[i]]
    {
      if i == |ws| {
        assert vs'[i] == vs[|vs| - 1];
      }
    }
  }

  /** Dropping the last step of a walk leaves a walk. */
  lemma WalkPrefix(g: seq<seq<Edge>>, vs: seq<nat>, ws: seq<nat>)
    requires IsWalk(g, vs, ws) && |ws| > 0
    ensures IsWalk(g, vs[..|vs| - 1], ws[..|ws| - 1])
    ensures Edge(vs[|vs| - 1], ws[|ws| - 1]) in g[vs[|vs| - 2]]
    ensures Sum(ws) == Sum(ws[..|ws| - 1]) + ws[|ws| - 1]
  {
  }

  lemma AchievesSelf(g: seq<seq<Edge>>, s: nat)
    requires s < |g|
    ensures Achieves(g, s, s, 0)
  {
    assert IsWalk(g, [s], []);
  }

  /** A distance achieved at `u` plus one edge out of `u` is achieved at its target. */
  lemma AchievesStep(g: seq<seq<Edge>>, s: nat, u: nat, du: int, v: nat, w: nat)
    requires Achieves(g, s, u, du)
    requires v < |g| && Edge(v, w) in g[u]
    ensures Achieves(g, s, v, du + w)
  {
    var vs, ws :| IsWalk(g, vs, ws) && vs[0] == s && vs[|vs| - 1] == u && Sum(ws) == du;
    WalkExtend(g, vs, ws, v, w);
    assert (vs + [v])[0] == s;
  }

  lemma {:induction false} SumPrepend(w: nat, ws: seq<nat>)
    ensures Sum([w] + ws) == w + Sum(ws)
    decreases |ws|
  {
    if |ws| > 0 {
      var n := |ws| - 1;
      assert ([w] + ws)[..n + 1] == [w] + ws[..n];
      SumPrepend(w, ws[..n]);
    } else {
      assert [w] + ws == [w] && [w][..0] == [];
    }
  }

  /** An edge `a -> vs[0]` followed by a walk is a walk from `a`. */
  lemma WalkPrepend(g: seq<seq<Edge>>, a: nat, w: nat, vs: seq<nat>, ws: seq<nat>)
    requires IsWalk(g, vs, ws)
    requires a < |g| && Edge(vs[0], w) in g[a]
    ensures IsWalk(g, [a] + vs, [w] + ws)
    ensures Sum([w] + ws) == w + Sum(ws)
  {
    SumPrepend(w, ws);
    var vs', ws' := [a] + vs, [w] + ws;
    forall i | 0 <= i < |ws'|
      ensures Edge(vs'[i + 1], ws'[i]) in g[vs'[i]]
    {
      if i > 0 {
        assert vs'[i] == vs[i - 1] && vs'[i + 1] == vs[i] && ws'[i] == ws[i - 1];
      }
    }
  }

  /** An edge `a -> t` followed by a walk from `t` is a walk from `a`. */
  lemma ReachablePrepend(g: seq<seq<Edge>>, a: nat, t: nat, w: nat, x: nat)
    requires a < |g| && Edge(t, w) in g[a]
    requires Reachable(g, t, x)
    ensures Reachable(g, a, x)
  {
    var vs, ws :| IsWalk(g, vs, ws) && vs[0] == t && vs[|vs| - 1] == x;
    WalkPrepend(g, a, w, vs, ws);
    assert ([a] + vs)[|vs|] == x;
  }
}
