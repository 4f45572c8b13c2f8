/** The bubble sort that the engine runs twice: over the state-name table
    (sort0) and over the rows of every distance-table block (sort1). Both
    passes compare neighbours `a[j+1] < a[j]` and swap them, for
    `i = 1 .. n-1` outer rounds of `j = 0 .. n-i-1`. */
module BubbleSort {

  /** `lt` is a strict weak order: asymmetric, and "not before" is transitive.
      Both orders the engine sorts by (string compareTo, int `<`) are such. */
  ghost predicate StrictWeakOrder<T(!new)>(lt: (T, T) -> bool)
  {
    && (forall x, y :: lt(x, y) ==> !lt(y, x))
    && (forall x, y, z :: !lt(x, y) && !lt(y, z) ==> !lt(x, z))
  }

  /** No later element comes strictly before an earlier one. */
  ghost predicate SortedUnder<T>(s: seq<T>, lt: (T, T) -> bool)
  {
    forall p, q :: 0 <= p < q < |s| ==> !lt(s[q], s[p])
  }

  method Sort<T(!new)>(a: seq<T>, lt: (T, T) -> bool) returns (r: seq<T>)
    requires StrictWeakOrder(lt)
    ensures multiset(r) == multiset(a)
    ensures SortedUnder(r, lt)
  {
    r := a;
    var n := |r|;
    if n == 0 {
      return;
    }
    var i := 1;
    while i < n
      invariant 1 <= i <= n
      invariant |r| == n && multiset(r) == multiset(a)
      // the last i-1 places hold the largest elements, in order
      invariant forall p, q :: n - i < p < q < n ==> !lt(r[q], r[p])
      invariant forall p, q :: 0 <= p <= n - i < q < n ==> !lt(r[q], r[p])
    {
      var r' := Pass(r, lt, n - i);
      PrefixBoundKept(r, r', lt, n - i);
      r := r';
      i := i + 1;
    }
  }

  /** One inner round, comparing neighbours from the front up to `last`: afterwards `r[last]` is a
      largest element of `r[..last+1]`, and only that prefix was permuted. */
  method Pass<T(!new)>(a: seq<T>, lt: (T, T) -> bool, last: nat) returns (r: seq<T>)
    requires StrictWeakOrder(lt)
    requires last < |a|
    ensures |r| == |a| && r[last + 1..] == a[last + 1..]
    ensures multiset(r[..last + 1]) == multiset(a[..last + 1])
    ensures forall p :: 0 <= p <= last ==> !lt(r[last], r[p])
  {
    r := a;
    var j := 0;
    while j < last
      invariant 0 <= j <= last
      invariant |r| == |a| && r[last + 1..] == a[last + 1..]
      invariant multiset(r[..last + 1]) == multiset(a[..last + 1])
      // the bubble carries a largest element of r[..j+1]
      invariant forall p :: 0 <= p <= j ==> !lt(r[j], r[p])
    {
      r := Bubble(r, lt, j, last);
      j := j + 1;
    }
  }

  /** One comparison of the inner round: `r[j]` and `r[j+1]` are swapped when
      the later one comes strictly first, so the bubble moves on to `j+1`. */
  method Bubble<T(!new)>(a: seq<T>, lt: (T, T) -> bool, j: nat, last: nat) returns (r: seq<T>)
    requires StrictWeakOrder(lt)
    requires j < last < |a|
    requires forall p :: 0 <= p <= j ==> !lt(a[j], a[p])
    ensures |r| == |a| && r[last + 1..] == a[last + 1..]
    ensures multiset(r[..last + 1]) == multiset(a[..last + 1])
    ensures forall p :: 0 <= p <= j + 1 ==> !lt(r[j + 1], r[p])
  {
    r := a;
    if lt(r[j + 1], r[j]) {
      SwapKeepsMultiset(r, j, last + 1);
      r := r[j := r[j + 1]][j + 1 := r[j]];
    }
  }

  lemma SwapKeepsMultiset<T>(s: seq<T>, j: nat, k: nat)
    requires j + 1 < k <= |s|
    ensures |s[j := s[j + 1]][j + 1 := s[j]]| == |s|
    ensures s[j := s[j + 1]][j + 1 := s[j]][k..] == s[k..]
    ensures multiset(s[j := s[j + 1]][j + 1 := s[j]][..k]) == multiset(s[..k])
  {
    var t := s[j := s[j + 1]][j + 1 := s[j]];
    assert t[..k] == s[..k][j := s[j + 1]][j + 1 := s[j]];
  }

  /** After a round over `a[..last+1]`, every element of the new prefix is still
      bounded by every element of the untouched suffix, and the new `r[last]`
      joins the sorted suffix. */
  lemma PrefixBoundKept<T(!new)>(a: seq<T>, r: seq<T>, lt: (T, T) -> bool, last: nat)
    requires StrictWeakOrder(lt)
    requires last < |a| == |r|
    requires r[last + 1..] == a[last + 1..]
    requires multiset(r[..last + 1]) == multiset(a[..last + 1])
    requires forall p :: 0 <= p <= last ==> !lt(r[last], r[p])
    requires forall p, q :: last < p < q < |a| ==> !lt(a[q], a[p])
    requires forall p, q :: 0 <= p <= last < q < |a| ==> !lt(a[q], a[p])
    ensures multiset(r) == multiset(a)
    ensures forall p, q :: last - 1 < p < q < |r| ==> !lt(r[q], r[p])
    ensures forall p, q :: 0 <= p <= last - 1 < q < |r| ==> !lt(r[q], r[p])
  {
    assert a == a[..last + 1] + a[last + 1..];
    assert r == r[..last + 1] + r[last + 1..];
    forall q | last < q < |r|
      ensures r[q] == a[q]
    {
      assert r[q] == r[last + 1..][q - last - 1];
    }
    forall p, q | 0 <= p <= last < q < |r|
      ensures !lt(r[q], r[p])
    {
      assert r[p] in multiset(a[..last + 1]) by {
        assert r[p] in r[..last + 1];
      }
      var p0 :| 0 <= p0 <= last && a[p0] == r[p];
    }
  }
}
