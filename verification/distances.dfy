/** The distance table (capdist.csv after loading): rows `(numA, numB, km)`
    grouped into blocks, one block per leading state number `numA`, and an
    array of the blocks' leading numbers. The block boundaries are a fixed
    arithmetic layout, including one block of double size. */
module Distances {
  import Search
  import BubbleSort

  /** One row of the table: state numbers `a` and `b` and their capital distance. */
  datatype DistRow = DistRow(a: int, b: int, km: nat)

  /** The part of a row that sort1 moves: column 1 together with column 2. */
  datatype Pair = Pair(b: int, km: nat)

  /** `markers[i]` is the leading state number of block i (numA_Arr). */
  datatype Table = Table(markers: seq<int>, rows: seq<DistRow>)

  /** Rows `lo` through `hi` of a block, both inclusive. */
  datatype Block = Block(lo: nat, hi: nat)

  /** The block layout as a function from block number to its row range.
      Blocks are non-empty and ascend without overlapping. */
  ghost predicate Ascending(range: nat -> Block)
  {
    && (forall t: nat :: range(t).lo <= range(t).hi)
    && (forall t: nat, u: nat :: t < u ==> range(t).hi < range(u).lo)
  }

  /** The layout hard-wired in the program: blocks of 202 rows laid end to end,
      except that block 64 is twice as long, which shifts every later block
      down by one block's length. */
  function SourceRange(t: nat): (blk: Block)
  {
    var lo := if t <= 64 then 202 * t else 202 * t + 202;
    var hi := if t != 64 then lo + 201 else lo + 403;
    Block(lo, hi)
  }

  /** The program's layout tiles the table: every block starts right after the
      previous one, so the blocks ascend. */
  lemma SourceRangeAscending()
    ensures SourceRange(0).lo == 0
    ensures forall t: nat :: SourceRange(t + 1).lo == SourceRange(t).hi + 1
    ensures Ascending(SourceRange)
  {
  }

  /** The 202 blocks of the program's table end at row 41005: 41006 rows. */
  lemma SourceLayoutSize()
    ensures SourceRange(201).hi == 41005
    ensures SourceRange(202).lo == 41006
  {
  }

  /** The table holds the rows of blocks `0 .. |markers|-1` and nothing after
      them (the program's 41006 rows are the 202 blocks of SourceRange). */
  ghost predicate Covers(T: Table, range: nat -> Block)
  {
    Ascending(range) && |T.rows| == range(|T.markers|).lo
  }

  lemma BlockInTable(T: Table, range: nat -> Block, t: nat)
    requires Covers(T, range)
    ensures t < |T.markers| ==> range(t).hi < |T.rows|
    ensures t == |T.markers| ==> |T.rows| <= range(t).lo
  {
  }

  predicate MarkersSorted(T: Table)
  {
    forall i, j :: 0 <= i < j < |T.markers| ==> T.markers[i] <= T.markers[j]
  }

  /** Block t is sorted by column 1. */
  predicate BlockSorted(T: Table, range: nat -> Block, t: nat)
      {
    && range(t).hi < |T.rows|
    && forall p, q :: range(t).lo <= p < q <= range(t).hi ==> T.rows[p].b <= T.rows[q].b
  }

  /** Result of a distance probe: the distance, no row for the pair (the
      program's -1), or a read past the end of the table (the program's
      ArrayIndexOutOfBoundsException). */
  datatype Lookup = Found(km: nat) | Missing | Fault

  /** The probe `num1 <= numaA[m]` of phase one. */
  function MarkerAtOrAbove(n: int): int -> bool
  {
    m => n <= m
  }

  /** The probe `num2 <= dist[m][1]` of phase two. */
  function RowAtOrAbove(n: int): DistRow -> bool
  {
    (row: DistRow) => n <= row.b
  }

  lemma SortedMarkersAreUpwardClosed(T: Table, n: int)
    ensures MarkersSorted(T) ==>
              Search.UpwardClosed(T.markers, MarkerAtOrAbove(n), 0, |T.markers|)
  {
  }

  lemma SortedBlockIsUpwardClosed(T: Table, range: nat -> Block, t: nat, n: int)
    requires range(t).lo <= range(t).hi < |T.rows|
    ensures BlockSorted(T, range, t) ==>
              Search.UpwardClosed(T.rows, RowAtOrAbove(n), range(t).lo, range(t).hi)
  {
  }

  /** `findDistance` and `Trip.Distance` on state numbers `n1`, `n2`: equal
      numbers give 0 without touching the table; otherwise phase one searches
      the markers over `[0, |markers|]`, phase two searches the chosen block
      over `[lo, hi]`, and the row it lands on answers only if its column 1 is `n2`. */
  function Probe(T: Table, range: nat -> Block, n1: int, n2: int): (r: Lookup)
    requires Covers(T, range)
    ensures n1 == n2 ==> r == Found(0)
    ensures MarkersSorted(T) ==>
              (r == Fault <==> n1 != n2 && forall i :: 0 <= i < |T.markers| ==> T.markers[i] < n1)
    ensures n1 != n2 && r.Found? ==>
              exists t, k :: 0 <= t < |T.markers| && n1 <= T.markers[t] &&
                             (MarkersSorted(T) ==> forall j :: 0 <= j < t ==> T.markers[j] < n1) &&
                             range(t).lo <= k <= range(t).hi &&
                             T.rows[k].b == n2 && T.rows[k].km == r.km
  {
    if n1 == n2 then Found(0)
    else
      var t := Search.Search(T.markers, MarkerAtOrAbove(n1), 0, |T.markers|);
      SortedMarkersAreUpwardClosed(T, n1);
      if t == |T.markers| then Fault
      else
        BlockInTable(T, range, t);
        var blk := range(t);
        var k := Search.Search(T.rows, RowAtOrAbove(n2), blk.lo, blk.hi);
        if T.rows[k].b == n2 then
          assert n1 <= T.markers[t] && blk.lo <= k <= blk.hi;
          assert MarkersSorted(T) ==> forall j :: 0 <= j < t ==> !MarkerAtOrAbove(n1)(T.markers[j]);
          Found(T.rows[k].km)
        else Missing
  }

  /** On a table whose markers ascend and whose block for `n1` is sorted, the
      probe finds the pair exactly when the block of `n1` holds a row for `n2`,
      and then answers with the first such row's distance. */
  lemma ProbeComplete(T: Table, range: nat -> Block, n1: int, n2: int, t: nat)
    requires Covers(T, range) && MarkersSorted(T)
    requires t < |T.markers| && T.markers[t] == n1
    requires forall j :: 0 <= j < t ==> T.markers[j] != n1
    requires BlockSorted(T, range, t)
    requires n1 != n2
    ensures Probe(T, range, n1, n2).Found? <==>
              exists k :: range(t).lo <= k <= range(t).hi && T.rows[k].b == n2
    ensures forall k :: range(t).lo <= k <= range(t).hi && T.rows[k].b == n2 &&
                        (forall j :: range(t).lo <= j < k ==> T.rows[j].b != n2)
                        ==> Probe(T, range, n1, n2) == Found(T.rows[k].km)
  {
    ProbeFindsPresent(T, range, n1, n2, t);
    ProbeFindsFirst(T, range, n1, n2, t);
  }

  /** The probe finds a distance exactly when block `t` has a row for `n2`. */
  lemma ProbeFindsPresent(T: Table, range: nat -> Block, n1: int, n2: int, t: nat)
    requires Covers(T, range) && MarkersSorted(T)
    requires t < |T.markers| && T.markers[t] == n1
    requires forall j :: 0 <= j < t ==> T.markers[j] != n1
    requires BlockSorted(T, range, t)
    requires n1 != n2
    ensures Probe(T, range, n1, n2).Found? <==>
              exists k :: range(t).lo <= k <= range(t).hi && T.rows[k].b == n2
  {
    ProbeUsesBlock(T, range, n1, n2, t);
    var blk := range(t);
    var k := Search.Search(T.rows, RowAtOrAbove(n2), blk.lo, blk.hi);
    if k' :| blk.lo <= k' <= blk.hi && T.rows[k'].b == n2 {
      SearchFindsFirstMatch(T, range, t, n2, k');
    }
  }

  /** The distance found is that of block `t`'s first row for `n2`. */
  lemma ProbeFindsFirst(T: Table, range: nat -> Block, n1: int, n2: int, t: nat)
    requires Covers(T, range) && MarkersSorted(T)
    requires t < |T.markers| && T.markers[t] == n1
    requires forall j :: 0 <= j < t ==> T.markers[j] != n1
    requires BlockSorted(T, range, t)
    requires n1 != n2
    ensures forall k :: range(t).lo <= k <= range(t).hi && T.rows[k].b == n2 &&
                        (forall j :: range(t).lo <= j < k ==> T.rows[j].b != n2)
                        ==> Probe(T, range, n1, n2) == Found(T.rows[k].km)
  {
    ProbeUsesBlock(T, range, n1, n2, t);
    var blk := range(t);
    var k := Search.Search(T.rows, RowAtOrAbove(n2), blk.lo, blk.hi);
    forall k' | blk.lo <= k' <= blk.hi && T.rows[k'].b == n2 &&
                (forall j :: blk.lo <= j < k' ==> T.rows[j].b != n2)
      ensures Probe(T, range, n1, n2) == Found(T.rows[k'].km)
    {
      SearchFindsFirstMatch(T, range, t, n2, k');
      var found := T.rows[k].b;
      assert blk.lo <= k && (k < k' ==> found != n2);
      assert k == k';
    }
  }

  /** In a sorted block, the search for column value `n2` stops at or before
      any row holding `n2`, on a row holding `n2`. */
  lemma SearchFindsFirstMatch(T: Table, range: nat -> Block, t: nat, n2: int, k': nat)
    requires BlockSorted(T, range, t) && range(t).lo <= k' <= range(t).hi
    requires T.rows[k'].b == n2
    ensures var k := Search.Search(T.rows, RowAtOrAbove(n2), range(t).lo, range(t).hi);
            k <= k' && T.rows[k].b == n2
  {
    var blk := range(t);
    SortedBlockIsUpwardClosed(T, range, t, n2);
    var k := Search.Search(T.rows, RowAtOrAbove(n2), blk.lo, blk.hi);
    assert RowAtOrAbove(n2)(T.rows[k']);
    if k < blk.hi {
      assert n2 <= T.rows[k].b;
    }
  }

  /** The first phase of the probe lands on block `t`, the first block marked
      with `n1`; the second phase searches that block. */
  lemma ProbeUsesBlock(T: Table, range: nat -> Block, n1: int, n2: int, t: nat)
    requires Covers(T, range) && MarkersSorted(T)
    requires t < |T.markers| && T.markers[t] == n1
    requires forall j :: 0 <= j < t ==> T.markers[j] != n1
    requires n1 != n2
    ensures range(t).lo <= range(t).hi < |T.rows|
    ensures var k := Search.Search(T.rows, RowAtOrAbove(n2), range(t).lo, range(t).hi);
            Probe(T, range, n1, n2) == if T.rows[k].b == n2 then Found(T.rows[k].km) else Missing
  {
    SortedMarkersAreUpwardClosed(T, n1);
    var s := Search.Search(T.markers, MarkerAtOrAbove(n1), 0, |T.markers|);
    assert s == t;
    BlockInTable(T, range, t);
  }

  /** The order sort1 sorts each block by: `dist[k+1][1] < dist[k][1]`. */
  predicate KeyBefore(x: Pair, y: Pair)
  {
    x.b < y.b
  }

  lemma KeyBeforeIsStrictWeakOrder()
    ensures BubbleSort.StrictWeakOrder(KeyBefore)
  {
  }

  function Pairs(rows: seq<DistRow>): (ps: seq<Pair>)
    ensures |ps| == |rows|
    ensures forall k :: 0 <= k < |rows| ==> ps[k] == Pair(rows[k].b, rows[k].km)
  {
    seq(|rows|, k requires 0 <= k < |rows| => Pair(rows[k].b, rows[k].km))
  }

  /** Columns 1 and 2 of the rows of block `blk` replaced by `ps`, everything
      else left where it was. */
  function Splice(rows: seq<DistRow>, blk: Block, ps: seq<Pair>): (r: seq<DistRow>)
    requires blk.lo <= blk.hi < |rows| && |ps| == blk.hi - blk.lo + 1
    ensures |r| == |rows|
    ensures forall k :: 0 <= k < |rows| ==> r[k].a == rows[k].a
    ensures forall k :: 0 <= k < |rows| && !(blk.lo <= k <= blk.hi) ==> r[k] == rows[k]
    ensures forall k :: blk.lo <= k <= blk.hi ==> r[k].b == ps[k - blk.lo].b
    ensures Pairs(r[blk.lo..blk.hi + 1]) == ps
  {
    var r := seq(|rows|, k requires 0 <= k < |rows| =>
                 if blk.lo <= k <= blk.hi then DistRow(rows[k].a, ps[k - blk.lo].b, ps[k - blk.lo].km)
                 else rows[k]);
    assert forall k :: 0 <= k < |ps| ==> Pairs(r[blk.lo..blk.hi + 1])[k] == ps[k];
    r
  }

  /** Block t of `R` is sorted by column 1 and holds the (column 1, column 2)
      pairs that block t of `T` held. */
  ghost predicate BlockSortedFrom(R: Table, T: Table, range: nat -> Block, t: nat)
    requires range(t).lo <= range(t).hi
    requires range(t).hi < |R.rows| && range(t).hi < |T.rows|
  {
    && BlockSorted(R, range, t)
    && multiset(Pairs(R.rows[range(t).lo..range(t).hi + 1]))
       == multiset(Pairs(T.rows[range(t).lo..range(t).hi + 1]))
  }

  /** One block of sort1: rows `blk.lo .. blk.hi` bubble-sorted by column 1. */
  method SortBlock(rows: seq<DistRow>, blk: Block) returns (r: seq<DistRow>)
    requires blk.lo <= blk.hi < |rows|
    ensures |r| == |rows|
    ensures forall k :: 0 <= k < |rows| ==> r[k].a == rows[k].a
    ensures forall k :: 0 <= k < |rows| && !(blk.lo <= k <= blk.hi) ==> r[k] == rows[k]
    ensures forall p, q :: blk.lo <= p < q <= blk.hi ==> r[p].b <= r[q].b
    ensures multiset(Pairs(r[blk.lo..blk.hi + 1])) == multiset(Pairs(rows[blk.lo..blk.hi + 1]))
  {
    var seg := rows[blk.lo..blk.hi + 1];
    var sorted := SortPairs(Pairs(seg));
    r := Splice(rows, blk, sorted);
    forall p, q | blk.lo <= p < q <= blk.hi
      ensures r[p].b <= r[q].b
    {
      assert sorted[p - blk.lo].b <= sorted[q - blk.lo].b;
    }
  }

  /** The bubble sort of one block's (column 1, column 2) pairs by column 1. */
  method SortPairs(ps: seq<Pair>) returns (sorted: seq<Pair>)
    ensures |sorted| == |ps| && multiset(sorted) == multiset(ps)
    ensures forall i, j :: 0 <= i < j < |sorted| ==> sorted[i].b <= sorted[j].b
  {
    KeyBeforeIsStrictWeakOrder();
    sorted := BubbleSort.Sort(ps, KeyBefore);
    assert |sorted| == |multiset(sorted)| == |ps|;
    forall i, j | 0 <= i < j < |sorted|
      ensures sorted[i].b <= sorted[j].b
    {
      assert !KeyBefore(sorted[j], sorted[i]);
    }
  }

  lemma EarlierBlockKept(R: Table, R': Table, T: Table, range: nat -> Block, t: nat, blk: Block)
    requires range(t).lo <= range(t).hi < blk.lo
    requires |R.rows| == |R'.rows| == |T.rows| && blk.lo <= blk.hi < |R.rows|
    requires forall k :: 0 <= k < |R.rows| && !(blk.lo <= k <= blk.hi) ==> R'.rows[k] == R.rows[k]
    requires BlockSortedFrom(R, T, range, t)
    ensures BlockSortedFrom(R', T, range, t)
  {
    var b := range(t);
    assert R'.rows[b.lo..b.hi + 1] == R.rows[b.lo..b.hi + 1];
  }

  lemma SortedBlockFrom(R: Table, R': Table, T: Table, range: nat -> Block, t: nat)
    requires range(t).lo <= range(t).hi < |R.rows| == |R'.rows| == |T.rows|
    requires R.rows[range(t).lo..range(t).hi + 1] == T.rows[range(t).lo..range(t).hi + 1]
    requires forall p, q :: range(t).lo <= p < q <= range(t).hi ==> R'.rows[p].b <= R'.rows[q].b
    requires multiset(Pairs(R'.rows[range(t).lo..range(t).hi + 1]))
             == multiset(Pairs(R.rows[range(t).lo..range(t).hi + 1]))
    ensures BlockSortedFrom(R', T, range, t)
  {
  }

  /** `sort1`: every block sorted by column 1; column 2 travels with column 1
      and column 0 never moves. */
  method SortBlocks(T: Table, range: nat -> Block) returns (R: Table)
    requires Covers(T, range)
    ensures R.markers == T.markers && |R.rows| == |T.rows| && Covers(R, range)
    ensures forall k :: 0 <= k < |T.rows| ==> R.rows[k].a == T.rows[k].a
    ensures forall t :: 0 <= t < |T.markers| ==>
              range(t).hi < |T.rows| && BlockSortedFrom(R, T, range, t)
  {
    R := T;
    var i := 0;
    while i < |T.markers|
      invariant 0 <= i <= |T.markers|
      invariant R.markers == T.markers && |R.rows| == |T.rows|
      invariant forall k :: 0 <= k < |T.rows| ==> R.rows[k].a == T.rows[k].a
      invariant forall k :: range(i).lo <= k < |T.rows| ==> R.rows[k] == T.rows[k]
      invariant forall t :: 0 <= t < i ==>
                  range(t).hi < |T.rows| && BlockSortedFrom(R, T, range, t)
    {
      R := SortNextBlock(T, range, R, i);
      i := i + 1;
    }
    BlockInTable(T, range, |T.markers|);
  }

  /** One round of `sort1`'s outer loop: block `i` gets sorted, the blocks
      before it stay sorted and the rows after it are still untouched. */
  method SortNextBlock(T: Table, range: nat -> Block, R: Table, i: nat) returns (R': Table)
    requires Covers(T, range) && i < |T.markers|
    requires R.markers == T.markers && |R.rows| == |T.rows|
    requires forall k :: 0 <= k < |T.rows| ==> R.rows[k].a == T.rows[k].a
    requires forall k :: range(i).lo <= k < |T.rows| ==> R.rows[k] == T.rows[k]
    requires forall t :: 0 <= t < i ==> range(t).hi < |T.rows| && BlockSortedFrom(R, T, range, t)
    ensures R'.markers == T.markers && |R'.rows| == |T.rows|
    ensures forall k :: 0 <= k < |T.rows| ==> R'.rows[k].a == T.rows[k].a
    ensures forall k :: range(i + 1).lo <= k < |T.rows| ==> R'.rows[k] == T.rows[k]
    ensures forall t :: 0 <= t < i + 1 ==> range(t).hi < |T.rows| && BlockSortedFrom(R', T, range, t)
  {
    BlockInTable(T, range, i);
    var blk := range(i);
    var rows' := SortBlock(R.rows, blk);
    assert R.rows[blk.lo..blk.hi + 1] == T.rows[blk.lo..blk.hi + 1];
    R' := Table(R.markers, rows');
    BlocksSortedUpTo(T, range, R, R', i);
    assert range(i).hi < range(i + 1).lo;
  }

  /** Sorting block `i` in place keeps the blocks before it sorted and makes
      block `i` a sorted copy of the original. */
  lemma BlocksSortedUpTo(T: Table, range: nat -> Block, R: Table, R': Table, i: nat)
    requires Covers(T, range) && i < |T.markers| && range(i).hi < |T.rows|
    requires |R.rows| == |R'.rows| == |T.rows|
    requires forall t :: 0 <= t < i ==> range(t).hi < |T.rows| && BlockSortedFrom(R, T, range, t)
    requires R.rows[range(i).lo..range(i).hi + 1] == T.rows[range(i).lo..range(i).hi + 1]
    requires forall k :: 0 <= k < |R.rows| && !(range(i).lo <= k <= range(i).hi) ==> R'.rows[k] == R.rows[k]
    requires forall p, q :: range(i).lo <= p < q <= range(i).hi ==> R'.rows[p].b <= R'.rows[q].b
    requires multiset(Pairs(R'.rows[range(i).lo..range(i).hi + 1]))
             == multiset(Pairs(R.rows[range(i).lo..range(i).hi + 1]))
    ensures forall t :: 0 <= t < i + 1 ==> range(t).hi < |T.rows| && BlockSortedFrom(R', T, range, t)
  {
    forall t | 0 <= t < i
      ensures range(t).hi < |T.rows| && BlockSortedFrom(R', T, range, t)
    {
      EarlierBlockKept(R, R', T, range, t, range(i));
    }
    SortedBlockFrom(R, R', T, range, i);
  }
}
