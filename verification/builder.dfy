/** Building the graph (`execute`) and the distance queries on it: `nextTo`
    turns a country's neighbour names into country indices, `findDistance`
    (and its twin `Trip.Distance`) looks up the capital distance of two
    countries by name, and `getDistance` answers only for bordering countries. */
module Builder {
  import opened StringOrder
  import opened Names
  import opened Distances
  import opened Graph

  /** The engine's state once built: the `Trip` fields plus the state table `num` reads. */
  datatype Trip = Trip(countries: seq<string>, states: seq<StateRow>, table: Table,
                       range: nat -> Block, graph: seq<seq<Edge>>)
  {
    ghost predicate Valid()
    {
      && |countries| > 0 && |states| > 0 && Covers(table, range)
      && |graph| == |countries| && WellFormed(graph)
    }
  }

  /** Why `execute` stops with an exception, with the country and the position
      in its neighbour list: a neighbour name that is not a country
      (`countries[-1]`), a state number beyond the last marker (the block search
      runs off the table), or a second node for a neighbour when the list holds
      only that neighbour (`AdjList.add` follows a null link). */
  datatype BuildError =
    | UnknownNeighbour(country: nat, position: nat)
    | DistanceFault(country: nat, position: nat)
    | DuplicateNeighbour(country: nat, position: nat)

  datatype Outcome<T> = Ready(value: T) | Crash(err: BuildError)

  /** `nextTo` on a border line already split into neighbour names: the index of
      each name, -1 for a name that is not a country. A line without neighbours
      gives no indices. */
  function NextTo(countries: seq<string>, names: seq<string>): (r: seq<int>)
    requires |countries| > 0
    ensures |r| == |names| && InRange(countries, r)
    ensures forall k :: 0 <= k < |names| ==>
              r[k] == -1 || (0 <= r[k] < |countries| && countries[r[k]] == names[k])
    ensures Sorted(countries) ==> forall k :: 0 <= k < |names| ==> (0 <= r[k] <==> names[k] in countries)
  {
    seq(|names|, k requires 0 <= k < |names| => Index(countries, names[k]))
  }

  /** The first row of the state table named `s`, the one `num` lands on. */
  predicate FirstRow(states: seq<StateRow>, k: int, s: string)
  {
    0 <= k < |states| && states[k].name == s && forall j :: 0 <= j < k ==> states[j].name != s
  }

  /** `findDistance(c1, c2)`, and `Trip.Distance`, which repeats it: the state
      numbers of both names, then the table probe. The same name always gives 0;
      on a sorted state table, names that are listed probe with their own numbers. */
  function FindDistance(states: seq<StateRow>, T: Table, range: nat -> Block, c1: string, c2: string): (r: Lookup)
    requires |states| > 0 && Covers(T, range)
    ensures c1 == c2 ==> r == Found(0)
    ensures SortedByName(states) ==>
              forall k1, k2 :: FirstRow(states, k1, c1) && FirstRow(states, k2, c2) ==>
                r == Probe(T, range, states[k1].number, states[k2].number)
  {
    Probe(T, range, StateNumber(states, c1), StateNumber(states, c2))
  }

  /** Every resolved neighbour index is a country index. */
  predicate InRange(countries: seq<string>, nabor: seq<int>)
  {
    forall k :: 0 <= k < |nabor| ==> nabor[k] < |countries|
  }

  /** The lookup `execute` makes for each neighbour of country `i`:
      `findDistance(countries[i], countries[x])`. A neighbour that is country
      `i` itself gets 0; on a sorted state table, a neighbour whose name is
      listed gets the table probe with both countries' state numbers. A
      negative index is never looked up (the program throws first); it gets
      `Missing` here. */
  function LineLookups(countries: seq<string>, states: seq<StateRow>, T: Table, range: nat -> Block,
                       i: nat, nabor: seq<int>): (ys: seq<Lookup>)
    requires |countries| > 0 && i < |countries| && |states| > 0 && Covers(T, range)
    requires InRange(countries, nabor)
    ensures |ys| == |nabor|
    ensures forall k :: 0 <= k < |nabor| && 0 <= nabor[k] ==>
              ys[k] == FindDistance(states, T, range, countries[i], countries[nabor[k]])
    ensures forall k :: 0 <= k < |nabor| && nabor[k] == i ==> ys[k] == Found(0)
    ensures SortedByName(states) ==>
              forall k, k1, k2 :: 0 <= k < |nabor| && 0 <= nabor[k] &&
                                  FirstRow(states, k1, countries[i]) &&
                                  FirstRow(states, k2, countries[nabor[k]]) ==>
                ys[k] == Probe(T, range, states[k1].number, states[k2].number)
  {
    seq(|nabor|, k requires 0 <= k < |nabor| =>
      if nabor[k] < 0 then Missing else FindDistance(states, T, range, countries[i], countries[nabor[k]]))
  }

  /** The nodes `execute` means to add for neighbour indices `nabor` whose
      lookups gave `ys`, in line order: one node per neighbour whose lookup
      found a row. */
  function Accepted(nabor: seq<int>, ys: seq<Lookup>): (es: seq<Edge>)
    requires |ys| == |nabor|
    decreases |nabor|
  {
    if |nabor| == 0 then []
    else
      var n := |nabor| - 1;
      var rest := Accepted(nabor[..n], ys[..n]);
      if 0 <= nabor[n] && ys[n].Found? then rest + [Edge(nabor[n], ys[n].km)] else rest
  }

  /** Position `k` gives node `e`: its neighbour is `e.vrtx` and its lookup found `e.wght`. */
  predicate Gives(nabor: seq<int>, ys: seq<Lookup>, k: int, e: Edge)
    requires |ys| == |nabor|
  {
    0 <= k < |nabor| && nabor[k] == e.vrtx && ys[k] == Found(e.wght)
  }

  /** A node is accepted exactly when some neighbour position gives it. */
  lemma {:induction false} AcceptedExactly(nabor: seq<int>, ys: seq<Lookup>)
    requires |ys| == |nabor|
    ensures forall e :: e in Accepted(nabor, ys) <==> exists k :: Gives(nabor, ys, k, e)
    decreases |nabor|
  {
    if |nabor| > 0 {
      var n := |nabor| - 1;
      AcceptedExactly(nabor[..n], ys[..n]);
      var last: seq<Edge> := if 0 <= nabor[n] && ys[n].Found? then [Edge(nabor[n], ys[n].km)] else [];
      var es := Accepted(nabor, ys);
      assert es == Accepted(nabor[..n], ys[..n]) + last;
      forall e: Edge
        ensures e in es <==> exists k :: Gives(nabor, ys, k, e)
      {
        if exists k :: Gives(nabor, ys, k, e) {
          var k :| Gives(nabor, ys, k, e);
          if k < n {
            assert Gives(nabor[..n], ys[..n], k, e);
          } else {
            assert e == last[0];
          }
        }
        if e in last {
          assert Gives(nabor, ys, n, e);
        } else if e in es {
          var k :| Gives(nabor[..n], ys[..n], k, e);
          assert Gives(nabor, ys, k, e);
        }
      }
    }
  }

  /** One more position extends the accepted nodes by at most its own node. */
  lemma AcceptedNext(nabor: seq<int>, ys: seq<Lookup>, k: nat)
    requires |ys| == |nabor| && k < |nabor|
    ensures Accepted(nabor[..k + 1], ys[..k + 1]) ==
            Accepted(nabor[..k], ys[..k]) +
            (if 0 <= nabor[k] && ys[k].Found? then [Edge(nabor[k], ys[k].km)] else [])
  {
    assert nabor[..k + 1][..k] == nabor[..k];
    assert ys[..k + 1][..k] == ys[..k];
  }

  /** Every neighbour name is a country. */
  predicate Resolves(nabor: seq<int>)
  {
    forall k :: 0 <= k < |nabor| ==> 0 <= nabor[k]
  }

  /** No lookup of a resolved neighbour runs off the table. */
  predicate NoFault(nabor: seq<int>, ys: seq<Lookup>)
    requires |ys| == |nabor|
  {
    forall k :: 0 <= k < |nabor| && 0 <= nabor[k] ==> ys[k] != Fault
  }

  /** No country is named twice among the neighbours. */
  predicate NoRepeats(nabor: seq<int>)
  {
    forall k1, k2 :: 0 <= k1 < k2 < |nabor| ==> nabor[k1] != nabor[k2]
  }

  /** `err` points at a neighbour of country `i` that makes `execute` throw. */
  predicate Explains(i: nat, nabor: seq<int>, ys: seq<Lookup>, err: BuildError)
    requires |ys| == |nabor|
  {
    && err.country == i
    && err.position < |nabor|
    && match err
       case UnknownNeighbour(_, k) => nabor[k] < 0
       case DistanceFault(_, k) => 0 <= nabor[k] && ys[k] == Fault
       case DuplicateNeighbour(_, k) => exists k1 :: 0 <= k1 < k && nabor[k1] == nabor[k]
  }

  /** The inner loop of `execute` for country `i`, given the neighbour indices
      and their lookups (lookups are pure, so they are taken here in advance):
      `add` a node for every distance found. The list comes out ordered by
      country index and holds exactly the accepted nodes. It succeeds only when
      every name resolves and every lookup stays in the table; it fails only at
      a neighbour that explains the failure, and never when the names resolve,
      the lookups stay in the table and no neighbour repeats. */
  method AddNeighbours(i: nat, nabor: seq<int>, ys: seq<Lookup>) returns (res: Outcome<seq<Edge>>)
    requires |ys| == |nabor|
    ensures res.Ready? ==>
              && SortedByVrtx(res.value)
              && multiset(res.value) == multiset(Accepted(nabor, ys))
    ensures res.Ready? ==> Resolves(nabor) && NoFault(nabor, ys)
    ensures res.Crash? ==> Explains(i, nabor, ys, res.err)
    ensures Resolves(nabor) && NoFault(nabor, ys) && NoRepeats(nabor) ==> res.Ready?
  {
    res := AddEach(i, nabor, ys);
    if res.Crash? {
      ExplainedCrash(i, nabor, ys, res.err);
    }
  }

  /** A crash explained by some neighbour means the line is not healthy. */
  lemma ExplainedCrash(i: nat, nabor: seq<int>, ys: seq<Lookup>, err: BuildError)
    requires |ys| == |nabor| && Explains(i, nabor, ys, err)
    ensures !(Resolves(nabor) && NoFault(nabor, ys) && NoRepeats(nabor))
  {
    var k := err.position;
    if err.DuplicateNeighbour? {
      var k1 :| 0 <= k1 < k && nabor[k1] == nabor[k];
    }
  }

  /** The loop itself: one `add` per found distance, stopping at the first
      neighbour that throws. */
  method AddEach(i: nat, nabor: seq<int>, ys: seq<Lookup>) returns (res: Outcome<seq<Edge>>)
    requires |ys| == |nabor|
    ensures res.Ready? ==>
              && SortedByVrtx(res.value)
              && multiset(res.value) == multiset(Accepted(nabor, ys))
    ensures res.Ready? ==> Resolves(nabor) && NoFault(nabor, ys)
    ensures res.Crash? ==> Explains(i, nabor, ys, res.err)
  {
    var l: seq<Edge> := [];
    var k := 0;
    while k < |nabor|
      invariant k <= |nabor|
      invariant forall j :: 0 <= j < k ==> 0 <= nabor[j] && ys[j] != Fault
      invariant SortedByVrtx(l)
      invariant multiset(l) == multiset(Accepted(nabor[..k], ys[..k]))
    {
      var next := AddOne(i, nabor, ys, k, l);
      if next.Crash? {
        return next;
      }
      l := next.value;
      k := k + 1;
    }
    assert nabor[..k] == nabor && ys[..k] == ys;
    res := Ready(l);
  }

  /** One pass of the loop over country `i`'s neighbours: the `k`-th neighbour
      is checked and, when it has a distance, added to `l` in place. It passes
      only a name that is a country and whose lookup stays in the table. */
  method AddOne(i: nat, nabor: seq<int>, ys: seq<Lookup>, k: nat, l: seq<Edge>)
    returns (res: Outcome<seq<Edge>>)
    requires |ys| == |nabor| && k < |nabor|
    requires SortedByVrtx(l) && multiset(l) == multiset(Accepted(nabor[..k], ys[..k]))
    ensures res.Ready? ==>
              && SortedByVrtx(res.value)
              && multiset(res.value) == multiset(Accepted(nabor[..k + 1], ys[..k + 1]))
    ensures res.Ready? ==> 0 <= nabor[k] && ys[k] != Fault
    ensures res.Crash? ==> Explains(i, nabor, ys, res.err)
  {
    var x := nabor[k];
    if x < 0 {
      return Crash(UnknownNeighbour(i, k));
    }
    var y := ys[k];
    if y == Fault {
      return Crash(DistanceFault(i, k));
    }
    AcceptedNext(nabor, ys, k);
    if y.Found? {
      if |l| == 1 && l[0].vrtx == x {
        assert l[0] in multiset(l);
        Repeated(nabor, ys, k, l[0]);
        return Crash(DuplicateNeighbour(i, k));
      }
      return Ready(Insert(l, Edge(x, y.km)));
    }
    return Ready(l);
  }

  lemma Repeated(nabor: seq<int>, ys: seq<Lookup>, k: nat, e: Edge)
    requires |ys| == |nabor| && k < |nabor|
    requires e in Accepted(nabor[..k], ys[..k]) && nabor[k] == e.vrtx
    ensures exists k1 :: 0 <= k1 < k && nabor[k1] == nabor[k]
  {
    AcceptedExactly(nabor[..k], ys[..k]);
    var k1 :| Gives(nabor[..k], ys[..k], k1, e);
    assert nabor[..k][k1] == nabor[k1];
  }

  /** Every node of the built graph carries the distance the lookup finds for
      its two countries. */
  ghost predicate Weighted(countries: seq<string>, states: seq<StateRow>, T: Table, range: nat -> Block,
                           g: seq<seq<Edge>>)
    requires |states| > 0 && Covers(T, range)
  {
    forall u, e :: 0 <= u < |g| && e in g[u] ==>
      u < |countries| && e.vrtx < |countries| &&
      FindDistance(states, T, range, countries[u], countries[e.vrtx]) == Found(e.wght)
  }

  /** The nodes meant for country `i`'s list: its border line resolved by
      `nextTo`, then looked up. */
  function Planned(countries: seq<string>, states: seq<StateRow>, T: Table, range: nat -> Block,
                   lines: seq<seq<string>>, i: nat): (es: seq<Edge>)
    requires |countries| > 0 && i < |countries| == |lines| && |states| > 0 && Covers(T, range)
  {
    var nabor := NextTo(countries, lines[i]);
    Accepted(nabor, LineLookups(countries, states, T, range, i, nabor))
  }

  /** Country `i`'s border line names only countries, and their lookups stay
      in the table. */
  ghost predicate LineResolves(countries: seq<string>, states: seq<StateRow>, T: Table, range: nat -> Block,
                               lines: seq<seq<string>>, i: nat)
    requires |countries| > 0 && i < |countries| == |lines| && |states| > 0 && Covers(T, range)
  {
    var nabor := NextTo(countries, lines[i]);
    Resolves(nabor) && NoFault(nabor, LineLookups(countries, states, T, range, i, nabor))
  }

  /** Country `i`'s border line builds without an exception: it resolves and
      no name on it repeats. */
  ghost predicate Healthy(countries: seq<string>, states: seq<StateRow>, T: Table, range: nat -> Block,
                          lines: seq<seq<string>>, i: nat)
    requires |countries| > 0 && i < |countries| == |lines| && |states| > 0 && Covers(T, range)
  {
    LineResolves(countries, states, T, range, lines, i) && NoRepeats(NextTo(countries, lines[i]))
  }

  /** `err` points at a neighbour on its country's border line that makes `execute` throw. */
  ghost predicate Faulty(countries: seq<string>, states: seq<StateRow>, T: Table, range: nat -> Block,
                         lines: seq<seq<string>>, err: BuildError)
    requires |countries| > 0 && |countries| == |lines| && |states| > 0 && Covers(T, range)
  {
    var i := err.country;
    i < |countries| &&
    var nabor := NextTo(countries, lines[i]);
    Explains(i, nabor, LineLookups(countries, states, T, range, i, nabor), err)
  }

  /** `execute`: sort the state table (`sort0`) and the distance blocks
      (`sort1`), then build every country's adjacency list from the neighbour
      indices `nextTo` finds on its border line. On success every line
      resolves, the graph is well formed, every list is ordered and holds
      exactly the planned nodes, and every node carries its looked-up distance. A failure points at the
      neighbour that caused it, and there is none when every line is healthy. */
  method Build(countries: seq<string>, lines: seq<seq<string>>, rows: seq<StateRow>,
               T0: Table, range: nat -> Block)
    returns (states: seq<StateRow>, T: Table, res: Outcome<seq<seq<Edge>>>)
    requires |countries| > 0 && |lines| == |countries| && |rows| > 0 && Covers(T0, range)
    ensures |states| == |rows| && multiset(states) == multiset(rows) && SortedByName(states)
    ensures T.markers == T0.markers && |T.rows| == |T0.rows| && Covers(T, range)
    ensures forall t :: 0 <= t < |T0.markers| ==>
              range(t).hi < |T0.rows| && BlockSortedFrom(T, T0, range, t)
    ensures res.Ready? ==>
              && |res.value| == |countries|
              && WellFormed(res.value)
              && Weighted(countries, states, T, range, res.value)
              && forall i :: 0 <= i < |countries| ==>
                   && LineResolves(countries, states, T, range, lines, i)
                   && SortedByVrtx(res.value[i])
                   && multiset(res.value[i]) == multiset(Planned(countries, states, T, range, lines, i))
    ensures res.Crash? ==> Faulty(countries, states, T, range, lines, res.err)
    ensures (forall i :: 0 <= i < |countries| ==> Healthy(countries, states, T, range, lines, i))
            ==> res.Ready?
  {
    states := SortStates(rows);
    T := SortBlocks(T0, range);
    res := BuildLists(countries, lines, states, T, range);
  }

  /** The adjacency-list loop of `execute` over the sorted tables. */
  method BuildLists(countries: seq<string>, lines: seq<seq<string>>, states: seq<StateRow>,
                    T: Table, range: nat -> Block)
    returns (res: Outcome<seq<seq<Edge>>>)
    requires |countries| > 0 && |lines| == |countries| && |states| > 0 && Covers(T, range)
    ensures res.Ready? ==>
              && |res.value| == |countries|
              && WellFormed(res.value)
              && Weighted(countries, states, T, range, res.value)
              && forall i :: 0 <= i < |countries| ==>
                   && LineResolves(countries, states, T, range, lines, i)
                   && SortedByVrtx(res.value[i])
                   && multiset(res.value[i]) == multiset(Planned(countries, states, T, range, lines, i))
    ensures res.Crash? ==> Faulty(countries, states, T, range, lines, res.err)
    ensures (forall i :: 0 <= i < |countries| ==> Healthy(countries, states, T, range, lines, i))
            ==> res.Ready?
  {
    res := BuildRows(countries, lines, states, T, range);
    if res.Ready? {
      BuiltGraph(countries, states, T, range, lines, res.value);
    }
  }

  /** The lines of the first `|g|` countries resolve, and their lists hold
      exactly their planned nodes, each sorted by country number. */
  ghost predicate FollowsPlan(countries: seq<string>, states: seq<StateRow>, T: Table, range: nat -> Block,
                              lines: seq<seq<string>>, g: seq<seq<Edge>>)
    requires |countries| > 0 && |lines| == |countries| && |states| > 0 && Covers(T, range)
    requires |g| <= |countries|
  {
    forall u :: 0 <= u < |g| ==>
      && LineResolves(countries, states, T, range, lines, u)
      && SortedByVrtx(g[u])
      && multiset(g[u]) == multiset(Planned(countries, states, T, range, lines, u))
  }

  lemma FollowsPlanExtend(countries: seq<string>, states: seq<StateRow>, T: Table, range: nat -> Block,
                          lines: seq<seq<string>>, g: seq<seq<Edge>>, row: seq<Edge>)
    requires |countries| > 0 && |lines| == |countries| && |states| > 0 && Covers(T, range)
    requires |g| < |countries| && FollowsPlan(countries, states, T, range, lines, g)
    requires LineResolves(countries, states, T, range, lines, |g|)
    requires SortedByVrtx(row) && multiset(row) == multiset(Planned(countries, states, T, range, lines, |g|))
    ensures FollowsPlan(countries, states, T, range, lines, g + [row])
  {
    forall u | 0 <= u < |g| + 1
      ensures LineResolves(countries, states, T, range, lines, u)
      ensures SortedByVrtx((g + [row])[u])
      ensures multiset((g + [row])[u]) == multiset(Planned(countries, states, T, range, lines, u))
    {
      if u < |g| {
        assert (g + [row])[u] == g[u];
      } else {
        assert (g + [row])[u] == row;
      }
    }
  }

  /** The loop of `execute` over the countries, one list per country, stopping
      at the first country whose line cannot be built. */
  method BuildRows(countries: seq<string>, lines: seq<seq<string>>, states: seq<StateRow>,
                   T: Table, range: nat -> Block)
    returns (res: Outcome<seq<seq<Edge>>>)
    requires |countries| > 0 && |lines| == |countries| && |states| > 0 && Covers(T, range)
    ensures res.Ready? ==>
              |res.value| == |countries| && FollowsPlan(countries, states, T, range, lines, res.value)
    ensures res.Crash? ==>
              && Faulty(countries, states, T, range, lines, res.err)
              && res.err.country < |countries|
              && !Healthy(countries, states, T, range, lines, res.err.country)
  {
    var g: seq<seq<Edge>> := [];
    var i := 0;
    while i < |countries|
      invariant i <= |countries| && |g| == i
      invariant FollowsPlan(countries, states, T, range, lines, g)
    {
      var row := BuildRow(countries, lines, states, T, range, i);
      if row.Crash? {
        return Crash(row.err);
      }
      FollowsPlanExtend(countries, states, T, range, lines, g, row.value);
      g := g + [row.value];
      i := i + 1;
    }
    res := Ready(g);
  }

  /** One pass of the loop of `execute`: country `i`'s neighbours, looked up and
      added to a fresh list. A list means the line resolves and holds exactly
      the planned nodes; a crash is a fault of country `i`'s line. */
  method BuildRow(countries: seq<string>, lines: seq<seq<string>>, states: seq<StateRow>,
                  T: Table, range: nat -> Block, i: nat)
    returns (row: Outcome<seq<Edge>>)
    requires |countries| > 0 && i < |countries| == |lines| && |states| > 0 && Covers(T, range)
    ensures row.Ready? ==>
              && LineResolves(countries, states, T, range, lines, i)
              && SortedByVrtx(row.value)
              && multiset(row.value) == multiset(Planned(countries, states, T, range, lines, i))
    ensures row.Crash? ==>
              && Faulty(countries, states, T, range, lines, row.err)
              && row.err.country == i
              && !Healthy(countries, states, T, range, lines, i)
  {
    var nabor := NextTo(countries, lines[i]);
    var ys := LineLookups(countries, states, T, range, i, nabor);
    row := AddNeighbours(i, nabor, ys);
    if row.Crash? {
      assert Explains(i, nabor, ys, row.err);
    }
  }

  lemma BuiltGraph(countries: seq<string>, states: seq<StateRow>, T: Table, range: nat -> Block,
                   lines: seq<seq<string>>, g: seq<seq<Edge>>)
    requires |countries| > 0 && |states| > 0 && Covers(T, range)
    requires |g| == |countries| == |lines|
    requires forall u :: 0 <= u < |g| ==>
               multiset(g[u]) == multiset(Planned(countries, states, T, range, lines, u))
    ensures WellFormed(g) && Weighted(countries, states, T, range, g)
  {
    forall u, e | 0 <= u < |g| && e in g[u]
      ensures e.vrtx < |countries| &&
              FindDistance(states, T, range, countries[u], countries[e.vrtx]) == Found(e.wght)
    {
      PlannedWeighted(countries, states, T, range, lines, u, e);
    }
  }

  /** A planned node points at a country and carries the looked-up distance. */
  lemma PlannedWeighted(countries: seq<string>, states: seq<StateRow>, T: Table, range: nat -> Block,
                        lines: seq<seq<string>>, u: nat, e: Edge)
    requires |countries| > 0 && u < |countries| == |lines| && |states| > 0 && Covers(T, range)
    requires e in multiset(Planned(countries, states, T, range, lines, u))
    ensures e.vrtx < |countries| &&
            FindDistance(states, T, range, countries[u], countries[e.vrtx]) == Found(e.wght)
  {
    var nabor := NextTo(countries, lines[u]);
    var ys := LineLookups(countries, states, T, range, u, nabor);
    AcceptedExactly(nabor, ys);
    assert e in Accepted(nabor, ys);
    var k :| Gives(nabor, ys, k, e);
    assert 0 <= nabor[k] < |countries|;
    assert ys[k] == FindDistance(states, T, range, countries[u], countries[nabor[k]]);
  }

  /** The walk along an adjacency list looking for a node of country `v`. */
  function HasNeighbour(l: seq<Edge>, v: nat): (r: bool)
    ensures r <==> exists e :: e in l && e.vrtx == v
  {
    if |l| == 0 then false
    else if l[0].vrtx == v then true
    else
      assert forall e :: e in l[1..] ==> e in l;
      assert forall e :: e in l && e != l[0] ==> e in l[1..];
      HasNeighbour(l[1..], v)
  }

  /** `getDistance(c1, c2)`: `Missing` (the program's -1) for an unknown name or
      countries that do not border; otherwise `Trip.Distance`. On a built graph
      it answers `Found(w)` exactly when `c1`'s list holds a node `(c2, w)`. */
  function GetDistance(t: Trip, c1: string, c2: string): (r: Lookup)
    requires t.Valid()
    ensures Index(t.countries, c1) < 0 || Index(t.countries, c2) < 0 ==> r == Missing
    ensures r != Missing ==>
              && 0 <= Index(t.countries, c1) && 0 <= Index(t.countries, c2)
              && exists e :: e in t.graph[Index(t.countries, c1)] && e.vrtx == Index(t.countries, c2)
    ensures Weighted(t.countries, t.states, t.table, t.range, t.graph) &&
            0 <= Index(t.countries, c1) && 0 <= Index(t.countries, c2) ==>
              forall w :: Edge(Index(t.countries, c2), w) in t.graph[Index(t.countries, c1)] <==> r == Found(w)
  {
    var num1 := Index(t.countries, c1);
    var num2 := Index(t.countries, c2);
    if num1 < 0 || num2 < 0 then Missing
    else if HasNeighbour(t.graph[num1], num2) then FindDistance(t.states, t.table, t.range, c1, c2)
    else Missing
  }
}
