/** `np.argmin(v[lo:hi]) + lo`: the first position of the smallest value in a window. */
module WindowSearch {

  /** The half-open index range [lo, hi) a detector searches. */
  datatype Window = Window(lo: int, hi: int)

  /** `np.argmin` on an empty slice raises; the detectors surface that as this error, naming the
      boundary (1 for the single two-column split) whose window was empty. */
  datatype DetectError = EmptySearchWindow(boundary: nat)

  function Max(a: int, b: int): int { if a < b then b else a }

  function Min(a: int, b: int): int { if a < b then a else b }

  /** r is the first index in [lo, hi) that holds the smallest value of v there. */
  ghost predicate IsEarliestMin(v: seq<int>, lo: int, hi: int, r: int) {
    0 <= lo <= r < hi <= |v| &&
    (forall i :: lo <= i < hi ==> v[r] <= v[i]) &&
    (forall i :: lo <= i < r ==> v[r] < v[i])
  }

  /** The argmin over a non-empty window; numpy raises on an empty one, so callers check. */
  function EarliestMin(v: seq<int>, lo: nat, hi: nat): (r: nat)
    requires lo < hi <= |v|
    ensures IsEarliestMin(v, lo, hi, r)
    decreases hi - lo
  {
    if lo + 1 == hi then lo
    else
      var m := EarliestMin(v, lo + 1, hi);
      if v[lo] <= v[m] then lo else m
  }

  /** At most one index is the earliest minimum, so EarliestMin is the only index that is. */
  lemma EarliestMinUnique(v: seq<int>, lo: nat, hi: nat, r: int)
    requires lo < hi <= |v|
    ensures IsEarliestMin(v, lo, hi, r) <==> r == EarliestMin(v, lo, hi)
  {
  }

  /** On a window where every value is equal (an all-blank profile, say) the first index wins. */
  lemma FlatWindowGivesLeftEdge(v: seq<int>, lo: nat, hi: nat)
    requires lo < hi <= |v|
    requires forall i :: lo <= i < hi ==> v[i] == v[lo]
    ensures EarliestMin(v, lo, hi) == lo
  {
  }

  /** A window holding a single strictly smallest value picks that value's index. */
  lemma UniqueMinimumIsFound(v: seq<int>, lo: nat, hi: nat, p: nat)
    requires lo <= p < hi <= |v|
    requires forall i :: lo <= i < hi && i != p ==> v[p] < v[i]
    ensures EarliestMin(v, lo, hi) == p
  {
  }
}
