/** The Dijkstra queue: a doubly linked list of `qNode`s (vertex, tentative
    distance) kept in ascending distance order, so that its head is a vertex
    of least distance. The list is modelled by the sequence of its nodes from
    head to tail; the back links carry no information of their own. */
module PriorityQueue {
  import Search

  /** `Integer.MAX_VALUE`, the distance of a vertex not reached yet. */
  const IntMax: int := 0x7fff_ffff

  /** A `qNode`. */
  datatype Entry = Entry(vrtx: nat, dist: int)

  predicate Sorted(q: seq<Entry>)
  {
    forall i, j :: 0 <= i < j < |q| ==> q[i].dist <= q[j].dist
  }

  /** No vertex is queued twice. */
  predicate Distinct(q: seq<Entry>)
  {
    forall i, j :: 0 <= i < j < |q| ==> q[i].vrtx != q[j].vrtx
  }

  /** The vertices the queue holds. */
  function Vertices(q: seq<Entry>): (vs: set<nat>)
    ensures forall v :: v in vs <==> exists i :: 0 <= i < |q| && q[i].vrtx == v
  {
    set e | e in q :: e.vrtx
  }

  /** The test `r.dist < q.dist` that keeps the middle-insertion walk going, negated. */
  function DistAtOrAbove(d: int): Entry -> bool
  {
    (e: Entry) => d <= e.dist
  }

  /** `Queue.add`: at the front when `e` is strictly closer than the head, at the
      rear when the tail is not farther than `e`, and otherwise before the first
      node after the head whose distance is not below `e`'s. */
  function Add(q: seq<Entry>, e: Entry): (r: seq<Entry>)
    ensures |r| == |q| + 1
    ensures exists k :: 0 <= k <= |q| && r == q[..k] + [e] + q[k..]
    ensures multiset(r) == multiset(q) + multiset{e}
    ensures forall f :: f in r <==> f in q || f == e
    ensures Vertices(r) == Vertices(q) + {e.vrtx}
    ensures Sorted(q) ==> Sorted(r)
  {
    var k := Slot(q, e);
    AddAt(q, e, k);
    q[..k] + [e] + q[k..]
  }

  /** Where `Queue.add` links `e` in. */
  function Slot(q: seq<Entry>, e: Entry): (k: nat)
    ensures k <= |q|
    ensures k == 0 || q[k - 1].dist <= e.dist
    ensures k == |q| || e.dist <= q[k].dist
  {
    if |q| == 0 then 0
    else if e.dist < q[0].dist then 0
    else if q[|q| - 1].dist <= e.dist then |q|
    else
      var k := Search.Scan(q, DistAtOrAbove(e.dist), 1, |q|);
      assert |q| > 1;
      assert !(k == |q|) || !DistAtOrAbove(e.dist)(q[|q| - 1]);
      k
  }

  /** Linking `e` in between a node not farther and a node not closer keeps the order. */
  lemma AddAt(q: seq<Entry>, e: Entry, k: nat)
    requires k <= |q|
    requires k == 0 || q[k - 1].dist <= e.dist
    requires k == |q| || e.dist <= q[k].dist
    ensures multiset(q[..k] + [e] + q[k..]) == multiset(q) + multiset{e}
    ensures forall f :: f in q[..k] + [e] + q[k..] <==> f in q || f == e
    ensures Vertices(q[..k] + [e] + q[k..]) == Vertices(q) + {e.vrtx}
    ensures Sorted(q) ==> Sorted(q[..k] + [e] + q[k..])
  {
    AddAtMultiset(q, e, k);
    AddAtVertices(q, e, k);
    if Sorted(q) {
      AddAtSorted(q, e, k);
    }
  }

  lemma AddAtMultiset(q: seq<Entry>, e: Entry, k: nat)
    requires k <= |q|
    ensures multiset(q[..k] + [e] + q[k..]) == multiset(q) + multiset{e}
    ensures forall f :: f in q[..k] + [e] + q[k..] <==> f in q || f == e
  {
    var r := q[..k] + [e] + q[k..];
    assert q == q[..k] + q[k..];
    assert forall f :: f in r <==> f in multiset(r);
  }

  lemma AddAtVertices(q: seq<Entry>, e: Entry, k: nat)
    requires k <= |q|
    ensures Vertices(q[..k] + [e] + q[k..]) == Vertices(q) + {e.vrtx}
  {
    var r := q[..k] + [e] + q[k..];
    assert forall i :: 0 <= i < |q| ==> q[i] == if i < k then r[i] else r[i + 1];
    assert r[k] == e;
    assert forall i :: 0 <= i < |r| && i != k ==> r[i] == if i < k then q[i] else q[i - 1];
  }

  lemma AddAtSorted(q: seq<Entry>, e: Entry, k: nat)
    requires k <= |q|
    requires k == 0 || q[k - 1].dist <= e.dist
    requires k == |q| || e.dist <= q[k].dist
    requires Sorted(q)
    ensures Sorted(q[..k] + [e] + q[k..])
  {
    var r := q[..k] + [e] + q[k..];
    assert forall i :: 0 <= i < k ==> r[i] == q[i];
    assert forall i :: k < i < |r| ==> r[i] == q[i - 1];
    forall i, j | 0 <= i < j < |r|
      ensures r[i].dist <= r[j].dist
    {
      if i < k && k < j {
        assert q[i].dist <= q[k - 1].dist;
      } else if i < k && j == k {
        assert q[i].dist <= q[k - 1].dist;
      } else if i == k && k < j {
        assert q[k].dist <= q[j - 1].dist;
      }
    }
  }

  /** `Queue.remove`: unlink the node at position `i`. */
  function Remove(q: seq<Entry>, i: nat): (r: seq<Entry>)
    requires i < |q|
    ensures |r| == |q| - 1
    ensures multiset(r) == multiset(q) - multiset{q[i]}
    ensures forall j :: 0 <= j < |r| ==> r[j] == if j < i then q[j] else q[j + 1]
    ensures Sorted(q) ==> Sorted(r)
    ensures Distinct(q) ==> Distinct(r) && Vertices(r) == Vertices(q) - {q[i].vrtx}
  {
    RemoveFacts(q, i);
    q[..i] + q[i + 1..]
  }

  lemma RemoveFacts(q: seq<Entry>, i: nat)
    requires i < |q|
    ensures multiset(q[..i] + q[i + 1..]) == multiset(q) - multiset{q[i]}
    ensures Distinct(q) ==> Vertices(q[..i] + q[i + 1..]) == Vertices(q) - {q[i].vrtx}
  {
    assert q == q[..i] + [q[i]] + q[i + 1..];
    if Distinct(q) {
      RemoveVertices(q, i);
    }
  }

  lemma RemoveVertices(q: seq<Entry>, i: nat)
    requires i < |q| && Distinct(q)
    ensures Vertices(q[..i] + q[i + 1..]) == Vertices(q) - {q[i].vrtx}
  {
    var r := q[..i] + q[i + 1..];
    assert forall j :: 0 <= j < |r| ==> r[j] == if j < i then q[j] else q[j + 1];
    forall v | v in Vertices(q) - {q[i].vrtx}
      ensures v in Vertices(r)
    {
      var j :| 0 <= j < |q| && q[j].vrtx == v;
      var j' := if j < i then j else j - 1;
      assert r[j'].vrtx == v;
    }
    forall v | v in Vertices(r)
      ensures v in Vertices(q) - {q[i].vrtx}
    {
      var j :| 0 <= j < |r| && r[j].vrtx == v;
      var j' := if j < i then j else j + 1;
      assert q[j'].vrtx == v && j' != i;
    }
  }

  /** The position of the first node for `v`, the one `decrease` walks to. */
  function Find(q: seq<Entry>, v: nat): (i: nat)
    requires v in Vertices(q)
    ensures i < |q| && q[i].vrtx == v
    ensures forall j :: 0 <= j < i ==> q[j].vrtx != v
  {
    if q[0].vrtx == v then 0
    else
      assert v in Vertices(q[1..]) by {
        var j :| 0 <= j < |q| && q[j].vrtx == v;
        assert q[1..][j - 1] == q[j];
      }
      1 + Find(q[1..], v)
  }

  /** `Queue.decrease(v, d)`: the node for `v` is unlinked and a fresh node
      `(v, d)` is added in order. The program walks off the end of the list when
      `v` is not queued; callers only decrease queued vertices. */
  function Decrease(q: seq<Entry>, v: nat, d: int): (r: seq<Entry>)
    requires v in Vertices(q)
    ensures |r| == |q|
    ensures multiset(r) == multiset(q) - multiset{q[Find(q, v)]} + multiset{Entry(v, d)}
    ensures Sorted(q) ==> Sorted(r)
    ensures Distinct(q) ==> Distinct(r) && Vertices(r) == Vertices(q)
    ensures Distinct(q) ==>
              forall e :: e in r <==> e == Entry(v, d) || (e in q && e.vrtx != v)
  {
    var i := Find(q, v);
    DecreaseFacts(q, v, d);
    Add(Remove(q, i), Entry(v, d))
  }

  lemma DecreaseFacts(q: seq<Entry>, v: nat, d: int)
    requires v in Vertices(q)
    ensures Distinct(q) ==> Distinct(Add(Remove(q, Find(q, v)), Entry(v, d)))
    ensures Distinct(q) ==>
              forall e :: e in Add(Remove(q, Find(q, v)), Entry(v, d)) <==>
                          e == Entry(v, d) || (e in q && e.vrtx != v)
  {
    var i := Find(q, v);
    var r := Add(Remove(q, i), Entry(v, d));
    if Distinct(q) {
      DistinctAdd(Remove(q, i), Entry(v, d));
      forall e
        ensures e in r <==> e == Entry(v, d) || (e in q && e.vrtx != v)
      {
        assert e in r <==> e in multiset(r);
        assert e in q <==> e in multiset(q);
        if e in q && e.vrtx != v {
          assert e != q[i];
        }
        if e in q && e.vrtx == v {
          var j :| 0 <= j < |q| && q[j] == e;
          assert j == i;
        }
      }
    }
  }

  /** Adding an entry for a vertex that is not queued keeps the vertices distinct. */
  lemma DistinctAdd(q: seq<Entry>, e: Entry)
    requires Distinct(q) && e.vrtx !in Vertices(q)
    ensures Distinct(Add(q, e))
  {
    var k := Slot(q, e);
    assert Add(q, e) == q[..k] + [e] + q[k..];
    DistinctAddAt(q, e, k);
  }

  lemma DistinctAddAt(q: seq<Entry>, e: Entry, k: nat)
    requires Distinct(q) && e.vrtx !in Vertices(q) && k <= |q|
    ensures Distinct(q[..k] + [e] + q[k..])
  {
    var r := q[..k] + [e] + q[k..];
    assert forall x :: 0 <= x < k ==> r[x] == q[x];
    assert forall x :: k < x < |r| ==> r[x] == q[x - 1];
    forall i, j | 0 <= i < j < |r|
      ensures r[i].vrtx != r[j].vrtx
    {
      if i == k {
        assert q[j - 1].vrtx in Vertices(q);
      } else if j == k {
        assert q[i].vrtx in Vertices(q);
      } else {
        var i' := if i < k then i else i - 1;
        var j' := if j < k then j else j - 1;
        assert i' < j' && r[i] == q[i'] && r[j] == q[j'];
      }
    }
  }

  /** `Queue.deleteMin`: the head's vertex, and the queue without it. The program
      reads the head of an empty queue; it is only called when `isNotDone` holds. */
  function DeleteMin(q: seq<Entry>): (r: (nat, seq<Entry>))
    requires |q| > 0
    ensures r.0 == q[0].vrtx && r.1 == q[1..]
    ensures multiset(r.1) == multiset(q) - multiset{Entry(r.0, q[0].dist)}
    ensures Entry(r.0, q[0].dist) in q
    ensures Sorted(q) ==> forall e :: e in q ==> q[0].dist <= e.dist
    ensures Sorted(q) ==> Sorted(r.1)
    ensures Distinct(q) ==> r.0 !in Vertices(r.1) && Vertices(r.1) == Vertices(q) - {r.0}
  {
    DeleteMinFacts(q);
    (q[0].vrtx, q[1..])
  }

  lemma DeleteMinFacts(q: seq<Entry>)
    requires |q| > 0
    ensures Entry(q[0].vrtx, q[0].dist) == q[0] && q[0] in q
    ensures multiset(q[1..]) == multiset(q) - multiset{q[0]}
    ensures Sorted(q) ==> (forall e :: e in q ==> q[0].dist <= e.dist) && Sorted(q[1..])
    ensures Distinct(q) ==> q[0].vrtx !in Vertices(q[1..]) && Vertices(q[1..]) == Vertices(q) - {q[0].vrtx}
  {
    var r := Remove(q, 0);
    assert r == q[1..];
    if Sorted(q) {
      forall e | e in q
        ensures q[0].dist <= e.dist
      {
        var j :| 0 <= j < |q| && q[j] == e;
      }
    }
  }

  /** `Queue.isNotDone`: the queue is not empty and its head has been reached.
      When it is false on an ordered queue, every vertex still queued is at
      infinite distance. */
  function IsNotDone(q: seq<Entry>): (r: bool)
    ensures r <==> |q| > 0 && q[0].dist != IntMax
    ensures !r && Sorted(q) && (forall e :: e in q ==> e.dist <= IntMax)
            ==> forall e :: e in q ==> e.dist == IntMax
  {
    |q| > 0 && q[0].dist != IntMax
  }
}
