/** The lower-bound binary search that every lookup of the engine uses (the
    country index, the state-number table, and both phases of the distance
    table probe), together with the linear scan it is proved to agree with. */
module Search {

  /** `atOrAbove` never turns false again once it has become true on `a[lo..hi]`:
      the slice is sorted with respect to the key being searched for. */
  ghost predicate UpwardClosed<T>(a: seq<T>, atOrAbove: T -> bool, lo: nat, hi: nat)
    requires lo <= hi <= |a|
  {
    forall i, j :: lo <= i <= j < hi && atOrAbove(a[i]) ==> atOrAbove(a[j])
  }

  /** The halving loop shared by every lookup: it keeps a window `[lo, hi)`,
      probes its middle, ends the window at the middle when the probe is at or
      above the key and starts it just past the middle otherwise, and answers
      the upper end once the window is empty. Only indices in `[lo, hi)` are probed. */
  function Search<T>(a: seq<T>, atOrAbove: T -> bool, lo: nat, hi: nat): (t: nat)
    requires lo <= hi <= |a|
    ensures lo <= t <= hi
    ensures t < hi ==> atOrAbove(a[t])
    ensures UpwardClosed(a, atOrAbove, lo, hi) ==>
              forall j :: lo <= j < t ==> !atOrAbove(a[j])
    decreases hi - lo
  {
    if lo < hi then
      var m := (lo + hi) / 2;
      if atOrAbove(a[m]) then Search(a, atOrAbove, lo, m)
      else Search(a, atOrAbove, m + 1, hi)
    else
      hi
  }

  /** Reference definition: walk from `lo` to the first element at or above the key,
      or stop at `hi`. */
  function Scan<T>(a: seq<T>, atOrAbove: T -> bool, lo: nat, hi: nat): (t: nat)
    requires lo <= hi <= |a|
    ensures lo <= t <= hi
    ensures t < hi ==> atOrAbove(a[t])
    ensures forall j :: lo <= j < t ==> !atOrAbove(a[j])
    decreases hi - lo
  {
    if lo == hi then hi
    else if atOrAbove(a[lo]) then lo
    else Scan(a, atOrAbove, lo + 1, hi)
  }

  /** On a sorted slice the binary search lands exactly where the linear scan does. */
  lemma SearchIsScan<T>(a: seq<T>, atOrAbove: T -> bool, lo: nat, hi: nat)
    requires lo <= hi <= |a|
    requires UpwardClosed(a, atOrAbove, lo, hi)
    ensures Search(a, atOrAbove, lo, hi) == Scan(a, atOrAbove, lo, hi)
  {
  }
}
