/** The N-column detector of the desktop tool (`detect_split_points` in pdf_processor.py):
    for each boundary k = 1 .. numCols - 1, the argmin of the smoothed profile within 8% of the
    width around `w * k / numCols`, then the boundaries sorted ascending. */
module SplitPoints {

  import opened Results
  import opened WindowSearch
  import opened Sorting

  /** How many boundaries `range(1, num_cols)` visits. */
  function BoundaryCount(numCols: nat): nat {
    if numCols == 0 then 0 else numCols - 1
  }

  /** The search window of boundary k: `expected = int(w * k / num_cols)` and
      `margin = int(w * 0.08)`, modelled as `w * k / numCols` and `w * 8 / 100`;
      `[max(0, expected - margin), min(w, expected + margin))`. */
  function BoundaryWindow(w: nat, numCols: nat, k: nat): (win: Window)
    requires 1 <= k < numCols
    ensures 0 <= win.lo <= win.hi <= w
  {
    ExpectedBelowWidth(w, numCols, k);
    var expected := w * k / numCols;
    var margin := w * 8 / 100;
    Window(Max(0, expected - margin), Min(w, expected + margin))
  }

  /** Detection succeeds on every page that is at least 13 pixels wide, and on every page when
      there are no boundaries to find. */
  predicate CanDetect(w: nat, numCols: nat) {
    numCols <= 1 || w >= 13
  }

  /** The argmin of boundary k, before sorting. */
  function RawPoint(v: seq<int>, numCols: nat, k: nat): (p: int)
    requires 1 <= k < numCols && CanDetect(|v|, numCols)
    ensures IsEarliestMin(v, BoundaryWindow(|v|, numCols, k).lo, BoundaryWindow(|v|, numCols, k).hi, p)
  {
    var win := BoundaryWindow(|v|, numCols, k);
    WindowNonEmptyIff(|v|, numCols, k);
    EarliestMin(v, win.lo, win.hi)
  }

  /** The list `points` holds before `sorted(points)`: entry i is the argmin of boundary i + 1. */
  function RawPoints(v: seq<int>, numCols: nat): (ps: seq<int>)
    requires CanDetect(|v|, numCols)
    ensures |ps| == BoundaryCount(numCols)
    ensures forall i :: 0 <= i < |ps| ==> ps[i] == RawPoint(v, numCols, i + 1)
  {
    seq(BoundaryCount(numCols), i requires 0 <= i < BoundaryCount(numCols) => RawPoint(v, numCols, i + 1))
  }

  /** `detect_split_points(image, num_cols)` given the smoothed profile `v` of the page. */
  method DetectSplitPoints(v: seq<int>, numCols: nat) returns (r: Result<seq<int>, DetectError>)
    ensures r.Ok? <==> CanDetect(|v|, numCols)
    ensures r.Err? ==> r.error == EmptySearchWindow(1)
    ensures r.Ok? ==> r.value == SortAscending(RawPoints(v, numCols))
    ensures r.Ok? ==> |r.value| == BoundaryCount(numCols) && Sorted(r.value)
    ensures r.Ok? ==> multiset(r.value) == multiset(RawPoints(v, numCols))
    ensures r.Ok? ==> forall i :: 0 <= i < |r.value| ==> 0 <= r.value[i] < |v|
  {
    var points := CollectPoints(v, numCols);
    if points.Err? {
      return Err(points.error);
    }
    var sorted := SortAscending(points.value);
    RawPointsWithinPage(v, numCols);
    SortKeepsBounds(points.value, 0, |v|);
    r := Ok(sorted);
  }

  /** The loop `for k in range(1, num_cols)` of `detect_split_points`: the raw boundaries in
      order of k, or the empty-window error of boundary 1 (numpy raises on the first boundary,
      since every window is empty exactly when the first one is). */
  method CollectPoints(v: seq<int>, numCols: nat) returns (r: Result<seq<int>, DetectError>)
    ensures r.Ok? <==> CanDetect(|v|, numCols)
    ensures r.Err? ==> r.error == EmptySearchWindow(1)
    ensures r.Ok? ==> r.value == RawPoints(v, numCols)
  {
    var w := |v|;
    var points: seq<int> := [];
    var k := 1;
    while k < numCols
      invariant 1 <= k && |points| == k - 1
      invariant k > 1 ==> CanDetect(w, numCols) && k <= numCols && points == RawPoints(v, numCols)[..k - 1]
    {
      var win := BoundaryWindow(w, numCols, k);
      var lo, hi := win.lo, win.hi;
      WindowNonEmptyIff(w, numCols, k);
      if lo >= hi {
        return Err(EmptySearchWindow(k));
      }
      var split := EarliestMin(v, lo, hi);
      ghost var raw := RawPoints(v, numCols);
      assert split == raw[k - 1];
      assert raw[..k] == raw[..k - 1] + [raw[k - 1]];
      points := points + [split];
      k := k + 1;
    }
    assert CanDetect(w, numCols);
    assert points == RawPoints(v, numCols);
    r := Ok(points);
  }

  /** Every raw point is a pixel column of the page. */
  lemma RawPointsWithinPage(v: seq<int>, numCols: nat)
    requires CanDetect(|v|, numCols)
    ensures forall i :: 0 <= i < BoundaryCount(numCols) ==> 0 <= RawPoints(v, numCols)[i] < |v|
  {
    forall i | 0 <= i < BoundaryCount(numCols) ensures 0 <= RawPoints(v, numCols)[i] < |v| {
      var win := BoundaryWindow(|v|, numCols, i + 1);
      assert IsEarliestMin(v, win.lo, win.hi, RawPoint(v, numCols, i + 1));
    }
  }

  /** Boundary k's window is non-empty exactly when the margin `w * 8 / 100` is at least one
      pixel, that is when the page is at least 13 pixels wide; with a zero margin the window is
      `[expected, expected)` and the argmin fails. */
  lemma WindowNonEmptyIff(w: nat, numCols: nat, k: nat)
    requires 1 <= k < numCols
    ensures BoundaryWindow(w, numCols, k).lo < BoundaryWindow(w, numCols, k).hi <==> w >= 13
  {
    ExpectedBelowWidth(w, numCols, k);
  }

  /** `w * k / numCols` is below the width for 1 <= k < numCols (and 0 on an empty page). */
  lemma ExpectedBelowWidth(w: nat, numCols: nat, k: nat)
    requires 1 <= k < numCols
    ensures 0 <= w * k / numCols <= w
    ensures w > 0 ==> w * k / numCols < w
  {
    assert w * k <= w * numCols;
    if w > 0 {
      assert w * k < w * numCols;
      DivBelow(w * k, w, numCols);
    } else {
      assert w * k == 0;
    }
  }

  /** On a blank page (an all-zero profile) every boundary is the left edge of its window. */
  lemma BlankPageBoundariesAtWindowStart(v: seq<int>, numCols: nat, k: nat)
    requires 1 <= k < numCols && CanDetect(|v|, numCols)
    requires forall i :: 0 <= i < |v| ==> v[i] == 0
    ensures RawPoint(v, numCols, k) == BoundaryWindow(|v|, numCols, k).lo
  {
    var win := BoundaryWindow(|v|, numCols, k);
    WindowNonEmptyIff(|v|, numCols, k);
    FlatWindowGivesLeftEdge(v, win.lo, win.hi);
  }

  /** With at most five columns (the choices the desktop tool offers) the windows do not overlap:
      each lies wholly left of the next, and the first starts right of column 0. */
  lemma {:induction false} FewColumnWindowsAreDisjoint(w: nat, numCols: nat, k: nat, k': nat)
    requires 2 <= numCols <= 5 && w >= 13 && 1 <= k < k' < numCols
    ensures BoundaryWindow(w, numCols, k).hi <= BoundaryWindow(w, numCols, k').lo
  {
    var margin := w * 8 / 100;
    DivAddLower(w * k, w, numCols);
    assert w * k + w == w * (k + 1);
    DivMonotoneDivisor(w, numCols, 5);
    assert w / 5 >= 2 * margin;
    assert w * (k + 1) <= w * k' by {
      MulMonotone(w, k + 1, k');
    }
    DivMonotoneNumerator(w * (k + 1), w * k', numCols);
  }

  /** The first window starts at column 1 or later when there are at most five columns. */
  lemma FirstWindowAvoidsLeftEdge(w: nat, numCols: nat)
    requires 2 <= numCols <= 5 && w >= 13
    ensures BoundaryWindow(w, numCols, 1).lo >= 1
  {
    assert w * 1 == w;
    DivMonotoneDivisor(w, numCols, 5);
    assert w / 5 >= w * 8 / 100 + 1;
  }

  /** The strict-increase property holds for the column counts the desktop tool offers: for
      2 <= numCols <= 5 on a page at least 13 pixels wide the boundaries come out strictly
      increasing and strictly inside (0, w), already in order, so that sorting changes nothing. */
  lemma {:induction false} FewColumnBoundariesStrictlyIncrease(v: seq<int>, numCols: nat)
    requires 2 <= numCols <= 5 && |v| >= 13
    ensures StrictlyIncreasing(RawPoints(v, numCols))
    ensures SortAscending(RawPoints(v, numCols)) == RawPoints(v, numCols)
    ensures forall i :: 0 <= i < numCols - 1 ==> 0 < RawPoints(v, numCols)[i] < |v|
  {
    var ps := RawPoints(v, numCols);
    forall i, j | 0 <= i < j < |ps| ensures ps[i] < ps[j] {
      FewColumnWindowsAreDisjoint(|v|, numCols, i + 1, j + 1);
    }
    SortSortedIsIdentity(ps);
    forall i | 0 <= i < numCols - 1 ensures 0 < ps[i] < |v| {
      FirstWindowAvoidsLeftEdge(|v|, numCols);
      RawPointsWithinPage(v, numCols);
      if i > 0 {
        FewColumnWindowsAreDisjoint(|v|, numCols, 1, i + 1);
      }
    }
  }

  /** With more columns the windows overlap and two boundaries can coincide: on a 100-pixel page
      cut into 13 columns, boundaries 1 and 2 search [0, 15) and [7, 23), and a profile whose only
      gap is at column 10 gives both of them column 10, so the sorted list repeats it. */
  lemma ManyColumnBoundariesCanCoincide()
    ensures var v := seq(100, i => if i == 10 then 0 else 1);
      RawPoint(v, 13, 1) == 10 && RawPoint(v, 13, 2) == 10 &&
      !StrictlyIncreasing(SortAscending(RawPoints(v, 13)))
  {
    var v := seq(100, i => if i == 10 then 0 else 1);
    assert BoundaryWindow(100, 13, 1) == Window(0, 15);
    assert BoundaryWindow(100, 13, 2) == Window(7, 23);
    UniqueMinimumIsFound(v, 0, 15, 10);
    UniqueMinimumIsFound(v, 7, 23, 10);
    var ps := RawPoints(v, 13);
    assert ps[0] == 10 && ps[1] == 10;
    assert ps == [ps[0], ps[1]] + ps[2..];
    assert multiset(ps)[10] >= 2;
    StrictHasNoRepeats(SortAscending(ps), 10);
  }

  /** A strictly increasing list holds every value at most once. */
  lemma {:induction false} StrictHasNoRepeats(s: seq<int>, x: int)
    ensures StrictlyIncreasing(s) ==> multiset(s)[x] <= 1
  {
    if s != [] && StrictlyIncreasing(s) {
      var t := s[1..];
      assert s == [s[0]] + t;
      StrictHasNoRepeats(t, x);
      if x == s[0] {
        assert x !in t;
      }
    }
  }

  lemma DivAddLower(a: nat, b: nat, n: nat)
    requires n > 0
    ensures (a + b) / n >= a / n + b / n
  {
    assert (a / n) * n <= a && (b / n) * n <= b;
    assert (a / n + b / n) * n <= a + b;
    DivLowerBound(a + b, a / n + b / n, n);
  }

  lemma DivLowerBound(a: nat, q: nat, n: nat)
    requires n > 0 && q * n <= a
    ensures q <= a / n
  {
    assert a < (a / n + 1) * n;
  }

  lemma DivMonotoneNumerator(a: nat, b: nat, n: nat)
    requires n > 0 && a <= b
    ensures a / n <= b / n
  {
    DivLowerBound(b, a / n, n);
  }

  lemma DivMonotoneDivisor(a: nat, n1: nat, n2: nat)
    requires 0 < n1 <= n2
    ensures a / n2 <= a / n1
  {
    assert (a / n2) * n1 <= (a / n2) * n2 by {
      MulMonotone(a / n2, n1, n2);
    }
    DivLowerBound(a, a / n2, n1);
  }

  lemma MulMonotone(a: nat, b: nat, c: nat)
    requires b <= c
    ensures a * b <= a * c
  {
  }

  lemma DivBelow(a: nat, b: nat, n: nat)
    requires n > 0 && a < b * n
    ensures a / n < b
  {
    assert a / n * n <= a;
  }
}
