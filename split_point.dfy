/** The two-column detector of the web front end (`detect_split_point` in app.py): one boundary,
    searched within 20% of the width on either side of the middle. */
module SplitPoint {

  import opened Results
  import opened WindowSearch

  /** The search window: `mid = w // 2`, `margin = int(w * 0.2)`, modelled as `w * 2 / 10`;
      `[max(0, mid - margin), min(w, mid + margin))`. */
  function CenterWindow(w: nat): (win: Window)
    ensures 0 <= win.lo <= win.hi <= w
  {
    var mid := w / 2;
    var margin := w * 2 / 10;
    Window(Max(0, mid - margin), Min(w, mid + margin))
  }

  /** The window has room for an argmin exactly when the page is at least 5 pixels wide. */
  lemma CenterWindowNonEmptyIff(w: nat)
    ensures CenterWindow(w).lo < CenterWindow(w).hi <==> w >= 5
  {
  }

  /** The split column of a page whose smoothed profile is `smoothed`. */
  function DetectSplitPoint(smoothed: seq<int>): (r: Result<int, DetectError>)
    ensures r.Ok? <==> |smoothed| >= 5
    ensures r.Err? ==> r.error == EmptySearchWindow(1)
    ensures r.Ok? ==>
      var win := CenterWindow(|smoothed|);
      IsEarliestMin(smoothed, win.lo, win.hi, r.value)
    ensures r.Ok? ==> 0 < r.value < |smoothed|
  {
    var win := CenterWindow(|smoothed|);
    if win.lo < win.hi then Ok(EarliestMin(smoothed, win.lo, win.hi))
    else Err(EmptySearchWindow(1))
  }

  /** On a blank page (a flat profile) the split is the left edge of the window. */
  lemma BlankPageSplitsAtWindowStart(smoothed: seq<int>)
    requires |smoothed| >= 5
    requires forall i :: 0 <= i < |smoothed| ==> smoothed[i] == 0
    ensures DetectSplitPoint(smoothed) == Ok(CenterWindow(|smoothed|).lo)
  {
    var win := CenterWindow(|smoothed|);
    FlatWindowGivesLeftEdge(smoothed, win.lo, win.hi);
  }
}
