/** The vertical ink-density profile of a grayscale page: binarize at a fixed threshold
    (THRESH_BINARY_INV, so dark pixels become 255) and sum every pixel column. */
module InkProfile {

  import opened Raster

  /** A gray level at or below this is ink. */
  const Threshold: int := 200
  /** The value an ink pixel takes in the binarized image. */
  const InkValue: int := 255

  /** A grayscale image with `w` pixels in every row. */
  predicate IsGrayImage(gray: seq<seq<Byte>>, w: nat) {
    forall y :: 0 <= y < |gray| ==> |gray[y]| == w
  }

  /** `cv2.threshold(gray, 200, 255, THRESH_BINARY_INV)` on one pixel. */
  function Binarize(g: Byte): (v: int)
    ensures v == InkValue <==> g as int <= Threshold
    ensures v == 0 <==> g as int > Threshold
  {
    if g as int > Threshold then 0 else InkValue
  }

  /** The sum of the binarized column x over the first n rows. */
  function ColumnSum(gray: seq<seq<Byte>>, w: nat, x: nat, n: nat): (s: int)
    requires IsGrayImage(gray, w) && x < w && n <= |gray|
    ensures 0 <= s <= InkValue * n
  {
    if n == 0 then 0 else ColumnSum(gray, w, x, n - 1) + Binarize(gray[n - 1][x])
  }

  /** `np.sum(thresh, axis=0)`: one entry per pixel column. */
  function Profile(gray: seq<seq<Byte>>, w: nat): (p: seq<int>)
    requires IsGrayImage(gray, w)
    ensures |p| == w
  {
    seq(w, x requires 0 <= x < w => ColumnSum(gray, w, x, |gray|))
  }

  /** The rows among the first n whose pixel in column x is ink. */
  ghost function InkRows(gray: seq<seq<Byte>>, w: nat, x: nat, n: nat): set<nat>
    requires IsGrayImage(gray, w) && x < w && n <= |gray|
  {
    set y: nat | y < n && gray[y][x] as int <= Threshold
  }

  /** A column sum is 255 times the number of ink rows it covers. */
  lemma {:induction false} ColumnSumCountsInk(gray: seq<seq<Byte>>, w: nat, x: nat, n: nat)
    requires IsGrayImage(gray, w) && x < w && n <= |gray|
    ensures ColumnSum(gray, w, x, n) == InkValue * |InkRows(gray, w, x, n)|
  {
    if n > 0 {
      ColumnSumCountsInk(gray, w, x, n - 1);
      var before := InkRows(gray, w, x, n - 1);
      if gray[n - 1][x] as int <= Threshold {
        assert InkRows(gray, w, x, n) == before + {n - 1};
        assert n - 1 !in before;
      } else {
        assert InkRows(gray, w, x, n) == before;
      }
    }
  }

  /** The profile has one entry per pixel column, and entry x is 255 times the number of rows
      whose pixel in column x has gray level at most 200. */
  lemma ProfileCountsInk(gray: seq<seq<Byte>>, w: nat, x: nat)
    requires IsGrayImage(gray, w) && x < w
    ensures |Profile(gray, w)| == w
    ensures Profile(gray, w)[x] == InkValue * |InkRows(gray, w, x, |gray|)|
  {
    ColumnSumCountsInk(gray, w, x, |gray|);
  }

  /** Every profile entry lies between 0 and 255 times the height. */
  lemma ProfileBounds(gray: seq<seq<Byte>>, w: nat, x: nat)
    requires IsGrayImage(gray, w) && x < w
    ensures 0 <= Profile(gray, w)[x] <= InkValue * |gray|
  {
  }

  /** A page with no pixel at or below the threshold has an all-zero profile. */
  lemma {:induction false} BlankPageProfileIsZero(gray: seq<seq<Byte>>, w: nat, x: nat)
    requires IsGrayImage(gray, w) && x < w
    requires forall y, c :: 0 <= y < |gray| && 0 <= c < w ==> gray[y][c] as int > Threshold
    ensures Profile(gray, w)[x] == 0
  {
    ProfileCountsInk(gray, w, x);
    assert InkRows(gray, w, x, |gray|) == {};
  }
}
