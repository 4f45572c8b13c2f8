/** The two name tables of the engine and their lookups: the country table
    (borders.txt order, the graph's vertex ids) searched by `index`, and the
    state table (name, state number) searched by `num` after `sort0` sorted it. */
module Names {
  import opened StringOrder
  import Search
  import BubbleSort

  /** One row of the state table: a state name and its state number. */
  datatype StateRow = StateRow(name: string, number: int)

  predicate SortedByName(states: seq<StateRow>)
  {
    forall i, j :: 0 <= i < j < |states| ==> LessEq(states[i].name, states[j].name)
  }

  /** The probe `name.compareTo(x) <= 0` of the country search. */
  function NameAtOrAbove(name: string): string -> bool
  {
    x => LessEq(name, x)
  }

  /** The probe `s.compareTo(row[0]) <= 0` of the state search. */
  function RowAtOrAbove(s: string): StateRow -> bool
  {
    (row: StateRow) => LessEq(s, row.name)
  }

  /** The order sort0 sorts by: `row1.name.compareTo(row0.name) < 0`. */
  predicate NameBefore(x: StateRow, y: StateRow)
  {
    Less(x.name, y.name)
  }

  lemma SortedNamesAreUpwardClosed(names: seq<string>, key: string, hi: nat)
    requires hi <= |names|
    ensures Sorted(names) ==> Search.UpwardClosed(names, NameAtOrAbove(key), 0, hi)
  {
    if Sorted(names) {
      forall i, j | 0 <= i <= j < hi && NameAtOrAbove(key)(names[i])
        ensures NameAtOrAbove(key)(names[j])
      {
        LessEqTransitive(key, names[i], names[j]);
      }
    }
  }

  lemma SortedRowsAreUpwardClosed(states: seq<StateRow>, key: string, hi: nat)
    requires hi <= |states|
    ensures SortedByName(states) ==> Search.UpwardClosed(states, RowAtOrAbove(key), 0, hi)
  {
    if SortedByName(states) {
      forall i, j | 0 <= i <= j < hi && RowAtOrAbove(key)(states[i])
        ensures RowAtOrAbove(key)(states[j])
      {
        LessEqTransitive(key, states[i].name, states[j].name);
      }
    }
  }

  /** `index(name)`: the position of `name` in the country table, or -1.
      The search runs over `[0, |countries|-1]`, so it never leaves the table. */
  function Index(countries: seq<string>, name: string): (r: int)
    requires |countries| > 0
    ensures r == -1 || (0 <= r < |countries| && countries[r] == name)
    ensures Sorted(countries) ==> (0 <= r <==> name in countries)
    ensures Sorted(countries) && 0 <= r ==> forall j :: 0 <= j < r ==> countries[j] != name
  {
    var t := Search.Search(countries, NameAtOrAbove(name), 0, |countries| - 1);
    SortedNamesAreUpwardClosed(countries, name, |countries| - 1);
    LowerBoundHits(countries, name, t);
    if countries[t] == name then t else -1
  }

  /** A lower bound in a sorted table holds the key whenever the table does. */
  lemma LowerBoundHits(a: seq<string>, key: string, t: nat)
    requires t < |a|
    requires t < |a| - 1 ==> LessEq(key, a[t])
    requires Sorted(a) ==> forall j :: 0 <= j < t ==> !LessEq(key, a[j])
    ensures Sorted(a) && key in a ==> a[t] == key
  {
    if Sorted(a) && key in a {
      var j :| 0 <= j < |a| && a[j] == key;
      if j != t {
        assert t < j;
        LessAsymmetric(key, a[t]);
      }
    }
  }

  /** `num(s)`: the state number of the first row whose name is at or above `s`
      (the last row if there is none). It never reports absence: a name that is
      not in the table gets the number of its successor row. */
  function StateNumber(states: seq<StateRow>, s: string): (r: int)
    requires |states| > 0
    ensures exists k :: 0 <= k < |states| && states[k].number == r &&
              (k == |states| - 1 || LessEq(s, states[k].name)) &&
              (SortedByName(states) ==> forall j :: 0 <= j < k ==> Less(states[j].name, s))
    ensures SortedByName(states) ==>
              forall k :: 0 <= k < |states| && states[k].name == s &&
                          (forall j :: 0 <= j < k ==> states[j].name != s)
                          ==> r == states[k].number
  {
    var t := Search.Search(states, RowAtOrAbove(s), 0, |states| - 1);
    SortedRowsAreUpwardClosed(states, s, |states| - 1);
    forall j | 0 <= j < t
      ensures SortedByName(states) ==> Less(states[j].name, s)
    {
      LessEqIsNotGreater(s, states[j].name);
    }
    StateLowerBoundHits(states, s, t);
    states[t].number
  }

  lemma StateLowerBoundHits(states: seq<StateRow>, s: string, t: nat)
    requires t < |states|
    requires t < |states| - 1 ==> LessEq(s, states[t].name)
    requires SortedByName(states) ==> forall j :: 0 <= j < t ==> !LessEq(s, states[j].name)
    ensures SortedByName(states) ==>
              forall k :: 0 <= k < |states| && states[k].name == s &&
                          (forall j :: 0 <= j < k ==> states[j].name != s)
                          ==> k == t
  {
    if SortedByName(states) {
      forall k | 0 <= k < |states| && states[k].name == s &&
                 (forall j :: 0 <= j < k ==> states[j].name != s)
        ensures k == t
      {
        if t < k {
          LessAsymmetric(s, states[t].name);
        }
      }
    }
  }

  lemma NameBeforeIsStrictWeakOrder()
    ensures BubbleSort.StrictWeakOrder(NameBefore)
  {
    forall x: StateRow, y: StateRow | NameBefore(x, y)
      ensures !NameBefore(y, x)
    {
      LessAsymmetric(x.name, y.name);
    }
    forall x: StateRow, y: StateRow, z: StateRow | !NameBefore(x, y) && !NameBefore(y, z)
      ensures !NameBefore(x, z)
    {
      LessEqIsNotGreater(y.name, x.name);
      LessEqIsNotGreater(z.name, y.name);
      LessEqIsNotGreater(z.name, x.name);
      LessEqTransitive(z.name, y.name, x.name);
    }
  }

  /** `sort0`: the state table sorted by name; every row moves as a whole, so
      each name keeps its own state number. */
  method SortStates(rows: seq<StateRow>) returns (sorted: seq<StateRow>)
    ensures |sorted| == |rows| && multiset(sorted) == multiset(rows)
    ensures SortedByName(sorted)
  {
    NameBeforeIsStrictWeakOrder();
    sorted := BubbleSort.Sort(rows, NameBefore);
    assert |sorted| == |multiset(sorted)| == |multiset(rows)| == |rows|;
    forall i, j | 0 <= i < j < |sorted|
      ensures LessEq(sorted[i].name, sorted[j].name)
    {
      assert !NameBefore(sorted[j], sorted[i]);
      LessEqIsNotGreater(sorted[i].name, sorted[j].name);
    }
  }
}
