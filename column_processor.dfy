/** The page loop of the desktop tool (`PDFProcessor.process_file` in pdf_processor.py): for
    every rendered page, detect numCols - 1 boundaries, then append numCols pages, either the
    column crops ("split") or full-size copies with all but one column painted white (any other
    mode). */
module ColumnProcessor {

  import opened Results
  import opened Raster
  import opened InkProfile
  import opened WindowSearch
  import opened Sorting
  import opened SplitPoints
  import opened Tiling
  import opened Document

  /** Why a run ends without a document: a detection failure on source page `page`, or
      `out.save` given a document with no pages, which PyMuPDF refuses. */
  datatype ProcessError = DetectionFailed(page: nat, cause: DetectError) | ZeroPageSave

  /** The Gaussian blur leaves the profile's length as it is. */
  ghost predicate PreservesLength(blur: seq<int> -> seq<int>) {
    forall p :: |blur(p)| == |p|
  }

  /** `cv2.cvtColor(..., COLOR_RGB2GRAY)`, pixel by pixel, through the conversion `toGray`. */
  function GrayImage(img: Bitmap, toGray: Rgb -> Byte): (gray: seq<seq<Byte>>)
    requires img.Valid()
    ensures |gray| == img.height && IsGrayImage(gray, img.width)
  {
    seq(img.height, y requires 0 <= y < img.height =>
      seq(img.width, x requires 0 <= x < img.width => toGray(img.pixels[y][x])))
  }

  /** The smoothed ink profile the detector searches. */
  function SmoothedProfile(img: Bitmap, toGray: Rgb -> Byte, blur: seq<int> -> seq<int>): (v: seq<int>)
    requires img.Valid() && PreservesLength(blur)
    ensures |v| == img.width
  {
    blur(Profile(GrayImage(img, toGray), img.width))
  }

  /** `edges = [0] + detect_split_points(img, num_cols) + [w]` for a page detection succeeds on. */
  function PageEdges(img: Bitmap, numCols: nat, toGray: Rgb -> Byte, blur: seq<int> -> seq<int>): (edges: seq<int>)
    requires img.Valid() && PreservesLength(blur) && CanDetect(img.width, numCols)
    ensures IsEdgeList(edges, img.width) && |edges| == BoundaryCount(numCols) + 2
  {
    var v := SmoothedProfile(img, toGray, blur);
    var splits := SortAscending(RawPoints(v, numCols));
    RawPointsWithinPage(v, numCols);
    SortKeepsBounds(RawPoints(v, numCols), 0, img.width);
    EdgesFromBoundaries(splits, img.width);
    Edges(splits, img.width)
  }

  /** Page j made from source page i with edge list `edges`: the crop of column j sized as the
      crop in split mode; the page with every other column painted white, sized as the page, in
      any other mode. */
  function ColumnPage(i: nat, img: Bitmap, edges: seq<int>, mode: string, j: nat): (p: Page)
    requires img.Valid() && IsEdgeList(edges, img.width) && j < |edges| - 1
    ensures p.sourcePage == i && p.column == j && p.bitmap.Valid()
    ensures p.width == p.bitmap.width && p.height == p.bitmap.height && p.height == img.height
    ensures mode == "split" ==> p.width == edges[j + 1] - edges[j]
    ensures mode != "split" ==> p.width == img.width
  {
    if mode == "split" then
      var part := Crop(img, edges[j], edges[j + 1]);
      Page(i, j, part.width, part.height, part)
    else
      Page(i, j, img.width, img.height, KeepColumns(img, edges[j], edges[j + 1]))
  }

  /** The numCols pages the loop appends for source page i. */
  function PageOutputs(i: nat, img: Bitmap, mode: string, numCols: nat,
                       toGray: Rgb -> Byte, blur: seq<int> -> seq<int>): (ps: seq<Page>)
    requires img.Valid() && PreservesLength(blur) && CanDetect(img.width, numCols)
    ensures |ps| == numCols
  {
    var edges := PageEdges(img, numCols, toGray, blur);
    seq(numCols, j requires 0 <= j < numCols => ColumnPage(i, img, edges, mode, j))
  }

  /** The first n pages render to bitmaps of their own size and can be detected on. */
  ghost predicate ProcessablePrefix(pages: seq<Bitmap>, n: nat, numCols: nat) {
    n <= |pages| && forall i :: 0 <= i < n ==> pages[i].Valid() && CanDetect(pages[i].width, numCols)
  }

  /** Every page can be processed. */
  ghost predicate Processable(pages: seq<Bitmap>, numCols: nat) {
    ProcessablePrefix(pages, |pages|, numCols)
  }

  /** The outputs of the first n source pages, one group per page. */
  function Groups(pages: seq<Bitmap>, n: nat, mode: string, numCols: nat,
                  toGray: Rgb -> Byte, blur: seq<int> -> seq<int>): (gs: seq<seq<Page>>)
    requires ProcessablePrefix(pages, n, numCols) && PreservesLength(blur)
    ensures |gs| == n && forall k :: 0 <= k < n ==> |gs[k]| == numCols
  {
    seq(n, k requires 0 <= k < n => PageOutputs(k, pages[k], mode, numCols, toGray, blur))
  }

  /** The document the loop assembles. */
  function Processed(pages: seq<Bitmap>, mode: string, numCols: nat,
                     toGray: Rgb -> Byte, blur: seq<int> -> seq<int>): seq<Page>
    requires Processable(pages, numCols) && PreservesLength(blur)
  {
    Flatten(Groups(pages, |pages|, mode, numCols, toGray, blur))
  }

  /** `masked = img.copy()`, then paint white left of column j unless it starts at 0 and right
      of it unless it ends at w. */
  method MaskColumn(img: Bitmap, lo: nat, hi: nat) returns (masked: Bitmap)
    requires img.Valid() && lo <= hi <= img.width
    ensures masked.Valid() && masked.width == img.width && masked.height == img.height
    ensures forall y, x :: 0 <= y < img.height && 0 <= x < img.width ==>
      masked.pixels[y][x] == if lo <= x < hi then img.pixels[y][x] else White
    ensures masked == KeepColumns(img, lo, hi)
  {
    var a := CopyToBuffer(img);
    if lo > 0 {
      PaintWhite(a, 0, lo);
    }
    if hi < img.width {
      PaintWhite(a, hi, img.width);
    }
    masked := Snapshot(a);
    BitmapExt(masked, KeepColumns(img, lo, hi));
  }

  /** The column loop for one source page: appends its numCols pages, in column order. */
  method AppendColumns(out: seq<Page>, i: nat, img: Bitmap, edges: seq<int>, mode: string, numCols: nat)
    returns (out': seq<Page>)
    requires img.Valid() && IsEdgeList(edges, img.width) && numCols < |edges|
    ensures out' == out + seq(numCols, j requires 0 <= j < numCols => ColumnPage(i, img, edges, mode, j))
  {
    ghost var group := seq(numCols, j requires 0 <= j < numCols => ColumnPage(i, img, edges, mode, j));
    var w, h := img.width, img.height;
    out' := out;
    if mode == "split" {
      for j := 0 to numCols
        invariant out' == out + group[..j]
      {
        var part := Crop(img, edges[j], edges[j + 1]);
        out' := out' + [Page(i, j, part.width, part.height, part)];
      }
    } else {
      for j := 0 to numCols
        invariant out' == out + group[..j]
      {
        var masked := MaskColumn(img, edges[j], edges[j + 1]);
        out' := out' + [Page(i, j, w, h, masked)];
      }
    }
    assert group[..numCols] == group;
  }

  /** The page loop: the run fails on the first page whose detection fails; otherwise the
      result is the assembled document. */
  method ProcessPages(pages: seq<Bitmap>, mode: string, numCols: nat,
                      toGray: Rgb -> Byte, blur: seq<int> -> seq<int>)
    returns (r: Result<seq<Page>, ProcessError>)
    requires forall i :: 0 <= i < |pages| ==> pages[i].Valid()
    requires PreservesLength(blur)
    ensures r.Ok? <==> Processable(pages, numCols)
    ensures r.Err? ==>
      r.error.DetectionFailed? &&
      var i := r.error.page;
      i < |pages| && !CanDetect(pages[i].width, numCols) &&
      forall k :: 0 <= k < i ==> CanDetect(pages[k].width, numCols)
    ensures r.Ok? ==> r.value == Processed(pages, mode, numCols, toGray, blur)
  {
    var out: seq<Page> := [];
    for i := 0 to |pages|
      invariant ProcessablePrefix(pages, i, numCols)
      invariant out == Flatten(Groups(pages, i, mode, numCols, toGray, blur))
    {
      var img := pages[i];
      var w := img.width;
      ghost var v := SmoothedProfile(img, toGray, blur);
      var splits := DetectSplitPoints(SmoothedProfile(img, toGray, blur), numCols);
      if splits.Err? {
        return Err(DetectionFailed(i, splits.error));
      }
      assert |v| == w && CanDetect(w, numCols);
      assert ProcessablePrefix(pages, i + 1, numCols);
      var edges := [0] + splits.value + [w];
      assert edges == PageEdges(img, numCols, toGray, blur);
      out := AppendColumns(out, i, img, edges, mode, numCols);
      GroupsStep(pages, i, mode, numCols, toGray, blur);
    }
    r := Ok(out);
  }

  /** The page loop followed by `out.save`: the run yields a document exactly when detection
      succeeds on every page and the document has a page, that is when there is a source page
      and at least one column. */
  method ProcessFile(pages: seq<Bitmap>, mode: string, numCols: nat,
                     toGray: Rgb -> Byte, blur: seq<int> -> seq<int>)
    returns (r: Result<seq<Page>, ProcessError>)
    requires forall i :: 0 <= i < |pages| ==> pages[i].Valid()
    requires PreservesLength(blur)
    ensures r.Ok? <==> Processable(pages, numCols) && |pages| > 0 && numCols > 0
    ensures r.Err? ==> (r.error.DetectionFailed? <==> !Processable(pages, numCols))
    ensures r.Err? && r.error.DetectionFailed? ==>
      var i := r.error.page;
      i < |pages| && !CanDetect(pages[i].width, numCols) &&
      forall k :: 0 <= k < i ==> CanDetect(pages[k].width, numCols)
    ensures r.Ok? ==> r.value == Processed(pages, mode, numCols, toGray, blur)
  {
    r := ProcessPages(pages, mode, numCols, toGray, blur);
    if r.Ok? {
      ProcessedPageCount(pages, mode, numCols, toGray, blur);
      EmptyProduct(|pages|, numCols);
      if |r.value| == 0 {
        r := Err(ZeroPageSave);
      }
    }
  }

  /** A product of two naturals is zero exactly when one of them is. */
  lemma EmptyProduct(a: nat, b: nat)
    ensures a * b == 0 <==> a == 0 || b == 0
  {
    if a > 0 && b > 0 {
      MulMonotone(a, 1, b);
    }
  }

  /** One more source page appends its outputs to the document. */
  lemma GroupsStep(pages: seq<Bitmap>, i: nat, mode: string, numCols: nat,
                   toGray: Rgb -> Byte, blur: seq<int> -> seq<int>)
    requires ProcessablePrefix(pages, i + 1, numCols) && PreservesLength(blur)
    ensures Flatten(Groups(pages, i + 1, mode, numCols, toGray, blur)) ==
      Flatten(Groups(pages, i, mode, numCols, toGray, blur)) + PageOutputs(i, pages[i], mode, numCols, toGray, blur)
  {
    var before := Groups(pages, i, mode, numCols, toGray, blur);
    var after := Groups(pages, i + 1, mode, numCols, toGray, blur);
    assert after[..i] == before;
  }

  /** What page j made from source page `img` holds: it names its source page and column, it
      is sized as the bitmap it embeds, which is as tall as the source page; in split mode that
      bitmap is the crop of column j, in any other mode the full-width mask of column j. */
  ghost predicate IsColumnPage(p: Page, i: nat, j: nat, img: Bitmap, edges: seq<int>, mode: string) {
    && img.Valid() && IsEdgeList(edges, img.width) && j < |edges| - 1
    && p.sourcePage == i && p.column == j
    && p.width == p.bitmap.width && p.height == p.bitmap.height && p.height == img.height
    && (mode == "split" ==> p.bitmap == Crop(img, edges[j], edges[j + 1]))
    && (mode != "split" ==> p.width == img.width && p.bitmap == KeepColumns(img, edges[j], edges[j + 1]))
  }

  /** Page order and page sizes: the document has numCols pages per source page, page-major and
      column-minor, so page j of source page i sits at position k = i * numCols + j, and it is
      the page of column j described by IsColumnPage. */
  lemma ProcessedPageAt(pages: seq<Bitmap>, mode: string, numCols: nat,
                        toGray: Rgb -> Byte, blur: seq<int> -> seq<int>, i: nat, j: nat, k: nat)
    requires Processable(pages, numCols) && PreservesLength(blur)
    requires i < |pages| && j < numCols && k == i * numCols + j
    ensures var doc := Processed(pages, mode, numCols, toGray, blur);
      && k < |doc|
      && IsColumnPage(doc[k], i, j, pages[i], PageEdges(pages[i], numCols, toGray, blur), mode)
  {
    PositionInDocument(pages, mode, numCols, toGray, blur, i, j, k);
    PageOutputsDescribed(i, pages[i], mode, numCols, toGray, blur, j);
  }

  /** Page j of source page i is the document's page k = i * numCols + j. */
  lemma PositionInDocument(pages: seq<Bitmap>, mode: string, numCols: nat,
                           toGray: Rgb -> Byte, blur: seq<int> -> seq<int>, i: nat, j: nat, k: nat)
    requires Processable(pages, numCols) && PreservesLength(blur)
    requires i < |pages| && j < numCols && k == i * numCols + j
    ensures var doc := Processed(pages, mode, numCols, toGray, blur);
      && k < |doc|
      && doc[k] == PageOutputs(i, pages[i], mode, numCols, toGray, blur)[j]
  {
    var groups := Groups(pages, |pages|, mode, numCols, toGray, blur);
    DocumentAt(Processed(pages, mode, numCols, toGray, blur), groups, numCols, i, j);
    assert groups[i] == PageOutputs(i, pages[i], mode, numCols, toGray, blur);
  }

  /** Output j of source page i is the page of column j. */
  lemma PageOutputsDescribed(i: nat, img: Bitmap, mode: string, numCols: nat,
                             toGray: Rgb -> Byte, blur: seq<int> -> seq<int>, j: nat)
    requires img.Valid() && PreservesLength(blur) && CanDetect(img.width, numCols) && j < numCols
    ensures IsColumnPage(PageOutputs(i, img, mode, numCols, toGray, blur)[j],
                         i, j, img, PageEdges(img, numCols, toGray, blur), mode)
  {
    var edges := PageEdges(img, numCols, toGray, blur);
    ColumnPageDescribed(i, img, edges, mode, j);
  }

  lemma ColumnPageDescribed(i: nat, img: Bitmap, edges: seq<int>, mode: string, j: nat)
    requires img.Valid() && IsEdgeList(edges, img.width) && j < |edges| - 1
    ensures IsColumnPage(ColumnPage(i, img, edges, mode, j), i, j, img, edges, mode)
  {
  }

  /** The document has exactly numCols pages per source page. */
  lemma ProcessedPageCount(pages: seq<Bitmap>, mode: string, numCols: nat,
                           toGray: Rgb -> Byte, blur: seq<int> -> seq<int>)
    requires Processable(pages, numCols) && PreservesLength(blur)
    ensures |Processed(pages, mode, numCols, toGray, blur)| == |pages| * numCols
  {
    FlattenLength(Groups(pages, |pages|, mode, numCols, toGray, blur), numCols);
  }

  /** The bitmaps of the n pages of `doc` that start at position `start`, in order. */
  function PageBitmaps(doc: seq<Page>, start: nat, n: nat): (parts: seq<Bitmap>)
    requires start + n <= |doc|
    ensures |parts| == n && forall j :: 0 <= j < n ==> parts[j] == doc[start + j].bitmap
  {
    seq(n, j requires 0 <= j < n => doc[start + j].bitmap)
  }

  /** In split mode the pages made from one source page tile it: their bitmaps, joined left
      to right in column order, give back every row, and their widths add up to the source
      width. With PositionInDocument these are the document's pages i * numCols .. i * numCols
      + numCols - 1. */
  lemma SplitPagesTileSource(i: nat, img: Bitmap, numCols: nat,
                             toGray: Rgb -> Byte, blur: seq<int> -> seq<int>)
    requires img.Valid() && PreservesLength(blur) && CanDetect(img.width, numCols) && numCols >= 1
    ensures var parts := PageBitmaps(PageOutputs(i, img, "split", numCols, toGray, blur), 0, numCols);
      && TotalWidth(parts) == img.width
      && (forall j :: 0 <= j < numCols ==> parts[j].Valid() && parts[j].height == img.height)
      && forall y :: 0 <= y < img.height ==> JoinRow(parts, y) == img.pixels[y]
  {
    var edges := PageEdges(img, numCols, toGray, blur);
    var outs := PageOutputs(i, img, "split", numCols, toGray, blur);
    var parts := PageBitmaps(outs, 0, numCols);
    forall j | 0 <= j < numCols
      ensures parts[j] == Crop(img, edges[j], edges[j + 1]) && parts[j].Valid() && parts[j].height == img.height
    {
      assert outs[j] == ColumnPage(i, img, edges, "split", j);
    }
    assert AreColumnCrops(img, edges, parts);
    CropsTilePage(img, edges, parts);
  }

  /** In mask mode (any mode but "split") the pages made from one source page partition it:
      each is as large as the source, and pixel (x, y) of column j's page shows the source pixel
      when x lies in column j and white otherwise, so it is shown on exactly one of them. */
  lemma MaskPagesPartitionSource(i: nat, img: Bitmap, mode: string, numCols: nat,
                                 toGray: Rgb -> Byte, blur: seq<int> -> seq<int>,
                                 j: nat, y: nat, x: nat)
    requires img.Valid() && PreservesLength(blur) && CanDetect(img.width, numCols) && mode != "split"
    requires j < numCols && y < img.height && x < img.width
    ensures var p := PageOutputs(i, img, mode, numCols, toGray, blur)[j];
      var edges := PageEdges(img, numCols, toGray, blur);
      && p.width == img.width && p.height == img.height
      && p.bitmap.Valid() && p.bitmap.width == img.width && p.bitmap.height == img.height
      && p.bitmap.pixels[y][x] == if j == ColumnOf(edges, img.width, x) then img.pixels[y][x] else White
  {
    var edges := PageEdges(img, numCols, toGray, blur);
    MasksPartitionPage(img, edges, j, y, x);
  }

  /** Any mode other than "split" takes the mask branch. */
  lemma OtherModesMask(pages: seq<Bitmap>, mode: string, numCols: nat,
                       toGray: Rgb -> Byte, blur: seq<int> -> seq<int>)
    requires Processable(pages, numCols) && PreservesLength(blur) && mode != "split"
    ensures Processed(pages, mode, numCols, toGray, blur) == Processed(pages, "mask", numCols, toGray, blur)
  {
    var g := Groups(pages, |pages|, mode, numCols, toGray, blur);
    var m := Groups(pages, |pages|, "mask", numCols, toGray, blur);
    forall k | 0 <= k < |pages| ensures g[k] == m[k] {
      assert forall j :: 0 <= j < numCols ==> g[k][j] == m[k][j];
    }
    assert g == m;
  }
}
