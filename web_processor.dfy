/** The web front end's pipeline (`process_pdf` and `compress_pdf` in app.py): every rendered
    page is split at one detected column, then either cut into its left and right halves
    ("split") or copied twice with one half painted white ("mask"); any other mode adds no
    pages. The assembled document is then re-rendered page by page into a compressed copy. */
module WebProcessor {

  import opened Results
  import opened Raster
  import opened WindowSearch
  import opened Sorting
  import opened SplitPoint
  import opened Tiling
  import opened Document
  import opened ColumnProcessor

  /** `UPLOAD_FOLDER`, where the previews are written. */
  const UploadFolder: string := "static/processed"

  /** What a successful run hands back: the compressed document and the preview URLs. */
  datatype WebOutput = WebOutput(doc: seq<Page>, previews: seq<string>)

  /** Whether `mode` is one of the two modes that produce pages. */
  predicate KnownMode(mode: string) {
    mode == "split" || mode == "mask"
  }

  /** How many pages one source page gives: two in a known mode, none otherwise. */
  function PagesPerSource(mode: string): nat {
    if KnownMode(mode) then 2 else 0
  }

  /** The URL of preview j: `"/" + os.path.join(UPLOAD_FOLDER, f"preview_{j}.png")`. */
  function PreviewPath(j: nat): (p: string)
    requires j < 10
    ensures |p| == |UploadFolder| + 15 && p[0] == '/' && p[|UploadFolder| + 10] == ('0' as int + j) as char
  {
    "/" + UploadFolder + "/preview_" + [('0' as int + j) as char] + ".png"
  }

  /** `detect_split_point` on one rendered page, with its gray conversion and blur. */
  function WebSplit(img: Bitmap, toGray: Rgb -> Byte, blur: seq<int> -> seq<int>): (r: Result<int, DetectError>)
    requires img.Valid() && PreservesLength(blur)
    ensures r.Ok? <==> img.width >= 5
    ensures r.Ok? ==> 0 < r.value < img.width
  {
    DetectSplitPoint(SmoothedProfile(img, toGray, blur))
  }

  /** The pages source page i gives when it is split at column s. */
  function WebPageOutputs(i: nat, img: Bitmap, s: nat, mode: string): (ps: seq<Page>)
    requires img.Valid() && s <= img.width
    ensures |ps| == PagesPerSource(mode)
    ensures forall j :: 0 <= j < |ps| ==>
      ps[j].sourcePage == i && ps[j].column == j && ps[j].bitmap.Valid() &&
      ps[j].width == ps[j].bitmap.width && ps[j].height == ps[j].bitmap.height && ps[j].height == img.height
  {
    var w, h := img.width, img.height;
    if mode == "split" then
      var left, right := Crop(img, 0, s), Crop(img, s, w);
      [Page(i, 0, left.width, left.height, left), Page(i, 1, right.width, right.height, right)]
    else if mode == "mask" then
      [Page(i, 0, w, h, KeepColumns(img, 0, s)), Page(i, 1, w, h, KeepColumns(img, s, w))]
    else
      []
  }

  /** The first n pages render to bitmaps of their own size and are at least 5 pixels wide. */
  ghost predicate WebProcessablePrefix(pages: seq<Bitmap>, n: nat) {
    n <= |pages| && forall i :: 0 <= i < n ==> pages[i].Valid() && pages[i].width >= 5
  }

  /** Every page can be processed. */
  ghost predicate WebProcessable(pages: seq<Bitmap>) {
    WebProcessablePrefix(pages, |pages|)
  }

  /** The outputs of the first n source pages, one group per page. */
  function WebGroups(pages: seq<Bitmap>, n: nat, mode: string,
                     toGray: Rgb -> Byte, blur: seq<int> -> seq<int>): (gs: seq<seq<Page>>)
    requires WebProcessablePrefix(pages, n) && PreservesLength(blur)
    ensures |gs| == n && forall k :: 0 <= k < n ==> |gs[k]| == PagesPerSource(mode)
  {
    seq(n, k requires 0 <= k < n =>
      WebPageOutputs(k, pages[k], WebSplit(pages[k], toGray, blur).value, mode))
  }

  /** The document the page loop assembles, before compression. */
  function WebAssembled(pages: seq<Bitmap>, mode: string,
                        toGray: Rgb -> Byte, blur: seq<int> -> seq<int>): seq<Page>
    requires WebProcessable(pages) && PreservesLength(blur)
  {
    Flatten(WebGroups(pages, |pages|, mode, toGray, blur))
  }

  /** The previews written after the first n pages: both outputs of page 0, in a known mode. */
  function Previews(n: nat, mode: string): (urls: seq<string>)
    ensures |urls| == if n > 0 && KnownMode(mode) then 2 else 0
    ensures forall j :: 0 <= j < |urls| ==> urls[j] == PreviewPath(j)
  {
    if n > 0 && KnownMode(mode) then [PreviewPath(0), PreviewPath(1)] else []
  }

  /** `left_masked` and `right_masked`: two copies of the page, the first painted white from
      column s to the right edge, the second from the left edge up to column s. */
  method MaskHalves(img: Bitmap, s: nat) returns (left: Bitmap, right: Bitmap)
    requires img.Valid() && s <= img.width
    ensures left.Valid() && left.width == img.width && left.height == img.height
    ensures right.Valid() && right.width == img.width && right.height == img.height
    ensures forall y, x :: 0 <= y < img.height && 0 <= x < img.width ==>
      left.pixels[y][x] == (if x < s then img.pixels[y][x] else White) &&
      right.pixels[y][x] == (if x < s then White else img.pixels[y][x])
    ensures left == KeepColumns(img, 0, s) && right == KeepColumns(img, s, img.width)
  {
    var a := CopyToBuffer(img);
    var b := CopyToBuffer(img);
    PaintWhite(a, s, img.width);
    PaintWhite(b, 0, s);
    left := Snapshot(a);
    right := Snapshot(b);
    BitmapExt(left, KeepColumns(img, 0, s));
    BitmapExt(right, KeepColumns(img, s, img.width));
  }

  /** The split branch for one page: its left and right crops, in that order, each on a page
      of its own size; page 0 also records both previews. */
  method AppendSplit(out: seq<Page>, previews: seq<string>, i: nat, img: Bitmap, s: nat)
    returns (out': seq<Page>, previews': seq<string>)
    requires img.Valid() && s <= img.width
    ensures out' == out + WebPageOutputs(i, img, s, "split")
    ensures previews' == previews + (if i == 0 then [PreviewPath(0), PreviewPath(1)] else [])
  {
    var w, h := img.width, img.height;
    var left := Crop(img, 0, s);
    var right := Crop(img, s, w);
    var parts := [left, right];
    ghost var group := WebPageOutputs(i, img, s, "split");
    ghost var shown := [PreviewPath(0), PreviewPath(1)];
    out', previews' := out, previews;
    for j := 0 to 2
      invariant out' == out + group[..j]
      invariant previews' == previews + (if i == 0 then shown[..j] else [])
    {
      var part := parts[j];
      if i == 0 {
        previews' := previews' + [PreviewPath(j)];
      }
      out' := out' + [Page(i, j, part.width, part.height, part)];
    }
    assert group[..2] == group && shown[..2] == shown;
  }

  /** The mask branch for one page: the two masked copies, left then right, each on a page of
      the source page's size; page 0 also records both previews. */
  method AppendMasked(out: seq<Page>, previews: seq<string>, i: nat, img: Bitmap, s: nat)
    returns (out': seq<Page>, previews': seq<string>)
    requires img.Valid() && s <= img.width
    ensures out' == out + WebPageOutputs(i, img, s, "mask")
    ensures previews' == previews + (if i == 0 then [PreviewPath(0), PreviewPath(1)] else [])
  {
    var w, h := img.width, img.height;
    var leftMasked, rightMasked := MaskHalves(img, s);
    var parts := [leftMasked, rightMasked];
    ghost var group := WebPageOutputs(i, img, s, "mask");
    ghost var shown := [PreviewPath(0), PreviewPath(1)];
    out', previews' := out, previews;
    for j := 0 to 2
      invariant out' == out + group[..j]
      invariant previews' == previews + (if i == 0 then shown[..j] else [])
    {
      var masked := parts[j];
      if i == 0 {
        previews' := previews' + [PreviewPath(j)];
      }
      out' := out' + [Page(i, j, w, h, masked)];
    }
    assert group[..2] == group && shown[..2] == shown;
  }

  /** The mode branch for one page: the split pages, the masked pages, or nothing. */
  method AppendPage(out: seq<Page>, previews: seq<string>, i: nat, img: Bitmap, s: nat, mode: string)
    returns (out': seq<Page>, previews': seq<string>)
    requires img.Valid() && s <= img.width
    ensures out' == out + WebPageOutputs(i, img, s, mode)
    ensures previews' == previews + (if i == 0 && KnownMode(mode) then [PreviewPath(0), PreviewPath(1)] else [])
  {
    if mode == "split" {
      out', previews' := AppendSplit(out, previews, i, img, s);
    } else if mode == "mask" {
      out', previews' := AppendMasked(out, previews, i, img, s);
    } else {
      out', previews' := out, previews;
      assert out' == out + WebPageOutputs(i, img, s, mode);
    }
  }

  /** The page loop of `process_pdf`. Detection runs before the mode is looked at, so a page
      narrower than 5 pixels aborts the run in every mode; otherwise the result is the
      assembled document and the previews of page 0. */
  method AssemblePages(pages: seq<Bitmap>, mode: string, toGray: Rgb -> Byte, blur: seq<int> -> seq<int>)
    returns (r: Result<WebOutput, ProcessError>)
    requires forall i :: 0 <= i < |pages| ==> pages[i].Valid()
    requires PreservesLength(blur)
    ensures r.Ok? <==> WebProcessable(pages)
    ensures r.Err? ==>
      r.error.DetectionFailed? &&
      var i := r.error.page;
      i < |pages| && pages[i].width < 5 && r.error.cause == EmptySearchWindow(1) &&
      forall k :: 0 <= k < i ==> pages[k].width >= 5
    ensures r.Ok? ==>
      r.value.doc == WebAssembled(pages, mode, toGray, blur) && r.value.previews == Previews(|pages|, mode)
  {
    var out: seq<Page> := [];
    var previews: seq<string> := [];
    for i := 0 to |pages|
      invariant WebProcessablePrefix(pages, i)
      invariant out == Flatten(WebGroups(pages, i, mode, toGray, blur))
      invariant previews == Previews(i, mode)
    {
      var img := pages[i];
      var split := WebSplit(img, toGray, blur);
      if split.Err? {
        return Err(DetectionFailed(i, split.error));
      }
      var s := split.value;
      assert WebProcessablePrefix(pages, i + 1);
      out, previews := AppendPage(out, previews, i, img, s, mode);
      WebGroupsStep(pages, i, mode, toGray, blur);
    }
    r := Ok(WebOutput(out, previews));
  }

  /** One more source page appends its outputs to the document. */
  lemma WebGroupsStep(pages: seq<Bitmap>, i: nat, mode: string, toGray: Rgb -> Byte, blur: seq<int> -> seq<int>)
    requires WebProcessablePrefix(pages, i + 1) && PreservesLength(blur)
    ensures Flatten(WebGroups(pages, i + 1, mode, toGray, blur)) ==
      Flatten(WebGroups(pages, i, mode, toGray, blur)) +
      WebPageOutputs(i, pages[i], WebSplit(pages[i], toGray, blur).value, mode)
  {
    var before := WebGroups(pages, i, mode, toGray, blur);
    var after := WebGroups(pages, i + 1, mode, toGray, blur);
    assert after[..i] == before;
  }

  /** The page loop of `compress_pdf`: one new page per page of `doc`, in the same order and
      with the same size, showing that page re-rendered (at 120 DPI) by `render`. */
  method CompressPages(doc: seq<Page>, render: Page -> Bitmap) returns (out: seq<Page>)
    ensures |out| == |doc|
    ensures forall k :: 0 <= k < |doc| ==>
      out[k].sourcePage == k && out[k].column == 0 &&
      out[k].width == doc[k].width && out[k].height == doc[k].height && out[k].bitmap == render(doc[k])
  {
    out := [];
    for k := 0 to |doc|
      invariant |out| == k
      invariant forall m :: 0 <= m < k ==>
        out[m] == Page(m, 0, doc[m].width, doc[m].height, render(doc[m]))
    {
      var page := doc[k];
      out := out + [Page(k, 0, page.width, page.height, render(page))];
    }
  }

  /** `process_pdf`: assemble, save (`out.save` refuses a document with no pages, which an
      empty source or a mode other than "split" and "mask" produces), then compress. On
      success the final document has one page per assembled page, with the assembled page's
      size, in the same order. */
  method ProcessPdf(pages: seq<Bitmap>, mode: string, toGray: Rgb -> Byte, blur: seq<int> -> seq<int>,
                    render: Page -> Bitmap)
    returns (r: Result<WebOutput, ProcessError>)
    requires forall i :: 0 <= i < |pages| ==> pages[i].Valid()
    requires PreservesLength(blur)
    ensures r.Ok? <==> WebProcessable(pages) && |pages| > 0 && KnownMode(mode)
    ensures r.Err? ==> (r.error.DetectionFailed? <==> !WebProcessable(pages))
    ensures r.Err? && r.error.DetectionFailed? ==>
      var i := r.error.page;
      i < |pages| && pages[i].width < 5 && forall k :: 0 <= k < i ==> pages[k].width >= 5
    ensures r.Ok? ==>
      var assembled := WebAssembled(pages, mode, toGray, blur);
      && |r.value.doc| == |assembled|
      && r.value.previews == Previews(|pages|, mode)
      && forall k :: 0 <= k < |assembled| ==>
           r.value.doc[k].width == assembled[k].width && r.value.doc[k].height == assembled[k].height &&
           r.value.doc[k].bitmap == render(assembled[k])
  {
    var assembled := AssemblePages(pages, mode, toGray, blur);
    if assembled.Err? {
      return Err(assembled.error);
    }
    WebPageCount(pages, mode, toGray, blur);
    EmptyProduct(|pages|, PagesPerSource(mode));
    if |assembled.value.doc| == 0 {
      return Err(ZeroPageSave);
    }
    var compressed := CompressPages(assembled.value.doc, render);
    r := Ok(WebOutput(compressed, assembled.value.previews));
  }

  /** In both known modes the web front end makes exactly the pages the desktop tool makes
      for two columns with edge list [0, s, w]. */
  lemma WebAgreesWithColumnProcessor(i: nat, img: Bitmap, s: nat, mode: string)
    requires img.Valid() && s <= img.width && KnownMode(mode)
    ensures IsEdgeList([0, s, img.width], img.width)
    ensures WebPageOutputs(i, img, s, mode) ==
      seq(2, j requires 0 <= j < 2 => ColumnPage(i, img, [0, s, img.width], mode, j))
  {
    var edges := [0, s, img.width];
    assert Sorted(edges);
    var ps := WebPageOutputs(i, img, s, mode);
    var cs := seq(2, j requires 0 <= j < 2 => ColumnPage(i, img, edges, mode, j));
    assert ps[0] == cs[0] && ps[1] == cs[1];
  }

  /** Split mode: the left page is s wide, the right one w - s, both as tall as the source,
      and each source row is the left page's row followed by the right page's. */
  lemma SplitHalvesTile(i: nat, img: Bitmap, s: nat)
    requires img.Valid() && s <= img.width
    ensures var ps := WebPageOutputs(i, img, s, "split");
      && |ps| == 2
      && ps[0].width == s && ps[1].width == img.width - s
      && ps[0].width + ps[1].width == img.width
      && ps[0].height == img.height && ps[1].height == img.height
      && ps[0].bitmap.Valid() && ps[1].bitmap.Valid()
      && forall y :: 0 <= y < img.height ==> ps[0].bitmap.pixels[y] + ps[1].bitmap.pixels[y] == img.pixels[y]
  {
    forall y | 0 <= y < img.height
      ensures Crop(img, 0, s).pixels[y] + Crop(img, s, img.width).pixels[y] == img.pixels[y]
    {
      var row := img.pixels[y];
      assert row[0..s] + row[s..img.width] == row;
    }
  }

  /** Mask mode: both pages are as large as the source; the left one shows exactly the pixels
      left of column s and the right one exactly the rest, so every source pixel is shown on
      one of the two and white on the other. */
  lemma MaskHalvesPartition(i: nat, img: Bitmap, s: nat, y: nat, x: nat)
    requires img.Valid() && s <= img.width && y < img.height && x < img.width
    ensures var ps := WebPageOutputs(i, img, s, "mask");
      && |ps| == 2
      && ps[0].width == img.width && ps[0].height == img.height
      && ps[1].width == img.width && ps[1].height == img.height
      && ps[0].bitmap.pixels[y][x] == (if x < s then img.pixels[y][x] else White)
      && ps[1].bitmap.pixels[y][x] == (if x < s then White else img.pixels[y][x])
  {
  }

  /** The assembled document has PagesPerSource(mode) pages per source page, and page j of
      source page i sits at position k = 2 * i + j and holds that page's output j. */
  lemma WebPageAt(pages: seq<Bitmap>, mode: string, toGray: Rgb -> Byte, blur: seq<int> -> seq<int>,
                  i: nat, j: nat, k: nat)
    requires WebProcessable(pages) && PreservesLength(blur) && KnownMode(mode)
    requires i < |pages| && j < 2 && k == 2 * i + j
    ensures var doc := WebAssembled(pages, mode, toGray, blur);
      && k < |doc|
      && doc[k] == WebPageOutputs(i, pages[i], WebSplit(pages[i], toGray, blur).value, mode)[j]
  {
    var groups := WebGroups(pages, |pages|, mode, toGray, blur);
    assert forall m :: 0 <= m < |groups| ==> |groups[m]| == 2;
    DocumentAt(WebAssembled(pages, mode, toGray, blur), groups, 2, i, j);
    assert groups[i] == WebPageOutputs(i, pages[i], WebSplit(pages[i], toGray, blur).value, mode);
  }

  /** The assembled document has PagesPerSource(mode) pages for every source page. */
  lemma WebPageCount(pages: seq<Bitmap>, mode: string, toGray: Rgb -> Byte, blur: seq<int> -> seq<int>)
    requires WebProcessable(pages) && PreservesLength(blur)
    ensures |WebAssembled(pages, mode, toGray, blur)| == |pages| * PagesPerSource(mode)
  {
    var groups := WebGroups(pages, |pages|, mode, toGray, blur);
    assert forall m :: 0 <= m < |groups| ==> |groups[m]| == PagesPerSource(mode);
    FlattenLength(groups, PagesPerSource(mode));
  }

  /** A mode other than "split" and "mask" produces an empty document. */
  lemma UnknownModeIsEmpty(pages: seq<Bitmap>, mode: string, toGray: Rgb -> Byte, blur: seq<int> -> seq<int>)
    requires WebProcessable(pages) && PreservesLength(blur) && !KnownMode(mode)
    ensures WebAssembled(pages, mode, toGray, blur) == []
  {
    WebPageCount(pages, mode, toGray, blur);
  }
}
