# PDF column processor — a verified model of its core

The repository turns every page of a multi-column PDF into one page per column. It has two
front ends that share one pipeline.

- **Desktop tool** (`pdf_processor.py`, the `PDFProcessor` class) works with any number of
  columns, `num_cols`.
- **Web front end** (`app.py`, the Flask `process_pdf`) always cuts a page into two columns,
  then re-renders the result into a compressed copy.

The pipeline renders each page to an RGB bitmap and builds an ink-density profile of it:
threshold the grayscale page at 200 and sum each pixel column. It then finds the column
boundaries: one argmin of the profile (its earliest minimum) per boundary, each inside a window
around the boundary's expected position. Finally it emits pages in source-page order, then
column order. In "split" mode it emits one crop per column, each on a page of the crop's size.
In mask mode it emits one full-size copy per column, with every other column painted white.

The model has one module per concern:

| module | file | models |
|---|---|---|
| `Results` | results.dfy | the success-or-error result used for `np.argmin` on an empty window |
| `Raster` | raster.dfy | bitmaps, `crop`, `copy` + `paste` of white boxes on an in-place pixel buffer |
| `InkProfile` | ink_profile.dfy | the binarized column-sum profile |
| `WindowSearch` | window_search.dfy | `np.argmin(v[lo:hi]) + lo` |
| `SplitPoint` | split_point.dfy | `detect_split_point` of the web front end |
| `SplitPoints` | split_points.dfy | `detect_split_points` of the desktop tool |
| `Sorting` | sorting.dfy | `sorted` on the boundary list |
| `Tiling` | tiling.dfy | edge lists `[0] + splits + [w]`, tiling by crops, partition by masks |
| `Document` | document.dfy | output pages and the page-major layout of a document |
| `ColumnProcessor` | column_processor.dfy | the page loop of `PDFProcessor.process_file` |
| `WebProcessor` | web_processor.dfy | `process_pdf` and `compress_pdf` of the web front end |

Rendering, gray conversion, the Gaussian blur and the re-rendering done during compression
become parameters:
- the input is the list of rendered page bitmaps;
- `toGray: Rgb -> Byte` is the gray conversion;
- `blur: seq<int> -> seq<int>` is the blur, assumed only to keep the profile's length;
- `render: Page -> Bitmap` is the re-rendering during compression.

### Where the stated design and the code disagree

The design states that the detected boundaries are strictly increasing and lie
strictly inside (0, width) for every column count. The code only sorts the argmins, so the
boundaries are non-decreasing in general, and the model follows the code.
- For the column counts the desktop tool offers (2 to 5), on a page at least 13 pixels wide,
  the search windows are disjoint. The boundaries then really are strictly increasing and
  inside (0, w), and the sort changes nothing (`SplitPoints.FewColumnBoundariesStrictlyIncrease`).
- For 13 columns on a 100-pixel page, two boundaries can coincide
  (`SplitPoints.ManyColumnBoundariesCanCoincide`).

The design also says nothing about failures:
- the web front end raises on pages narrower than 5 pixels;
- the desktop tool raises, for two or more columns, on pages narrower than 13 pixels.

In both cases the search window is empty and `np.argmin` raises. The model gives this as an
error result.

## Model

| member | source | states |
|---|---|---|
| Raster.Crop | pdf_processor.py:95 | `img.crop((x0, 0, x1, h))` is an (x1 - x0) × h bitmap whose pixel (x, y) is source pixel (x0 + x, y) |
| Raster.KeepColumns | pdf_processor.py:103-107 | the result is a w × h bitmap, of the same size as the page |
| Raster.CopyToBuffer | pdf_processor.py:103 | `img.copy()` is a fresh pixel buffer of the page's size holding exactly the page's pixels |
| Raster.PaintWhite | pdf_processor.py:105-107 | `paste((255, 255, 255), box=(x0, 0, x1, h))` makes every pixel with x0 <= x < x1 white and leaves every other pixel as it was |
| Sorting.Insert | pdf_processor.py:29 | insertion keeps the elements (multiset plus x), adds one, and keeps an ascending list ascending |
| Sorting.SortAscending | pdf_processor.py:29 | `sorted(points)` is ascending, a permutation of the input (same multiset) and of the same length |
| Sorting.SortKeepsBounds | pdf_processor.py:29 | a bound that holds for every point still holds for every sorted point |
| Sorting.SortSortedIsIdentity | pdf_processor.py:29 | sorting an ascending list gives the list back |
| InkProfile.Binarize | pdf_processor.py:16 | `THRESH_BINARY_INV` at 200: a pixel becomes 255 exactly when its gray level is at most 200, and 0 exactly when it is above |
| InkProfile.Profile | app.py:27 | `np.sum(thresh, axis=0)` has one entry per pixel column |
| InkProfile.ColumnSumCountsInk | app.py:25-27 | a column sum over n rows is 255 × the number of those rows whose pixel is at most 200 |
| InkProfile.ProfileCountsInk | app.py:25-27 | profile entry x is 255 × the number of rows y with gray[y][x] <= 200, and the profile is as long as the page is wide |
| InkProfile.ColumnSum | app.py:27 | the sum of one binarized pixel column over n rows lies in [0, 255 n] |
| InkProfile.ProfileBounds | pdf_processor.py:17 | every profile entry lies in [0, 255 × height] |
| InkProfile.BlankPageProfileIsZero | pdf_processor.py:16-17 | a page with no ink pixel has an all-zero profile |
| WindowSearch.EarliestMin | app.py:35 | `np.argmin(v[lo:hi]) + lo` lies in [lo, hi), holds the smallest value there, and no earlier index of the window holds that value |
| WindowSearch.EarliestMinUnique | app.py:35 | an index is the earliest minimum of the window if and only if it is the argmin |
| WindowSearch.FlatWindowGivesLeftEdge | app.py:35 | on a window of equal values the argmin is the window's left end |
| WindowSearch.UniqueMinimumIsFound | pdf_processor.py:27 | a window with one strictly smallest value yields that value's index |
| SplitPoint.CenterWindow | app.py:30-33 | the window `[max(0, w//2 - int(0.2 w)), min(w, w//2 + int(0.2 w)))` lies within [0, w] |
| SplitPoint.CenterWindowNonEmptyIff | app.py:30-35 | the window is non-empty if and only if the page is at least 5 pixels wide |
| SplitPoint.DetectSplitPoint | app.py:23-36 | succeeds if and only if the profile has at least 5 entries, and otherwise reports the empty window; the split is the earliest minimum of the profile over the window, and it lies strictly inside (0, w) |
| SplitPoint.BlankPageSplitsAtWindowStart | app.py:30-35 | on an all-zero profile the split is the window's left end |
| SplitPoints.BoundaryWindow | pdf_processor.py:23-26 | the window of boundary k, `[max(0, int(w k / n) - int(0.08 w)), min(w, int(w k / n) + int(0.08 w)))`, lies within [0, w] |
| SplitPoints.CanDetect | pdf_processor.py:24-27 | detection can succeed exactly when there is no boundary to find or the page is at least 13 pixels wide; DetectSplitPoints and WindowNonEmptyIff state that this is the success condition |
| SplitPoints.RawPoint | pdf_processor.py:27 | boundary k is the earliest minimum of the profile over its window |
| SplitPoints.RawPoints | pdf_processor.py:21-28 | `points` holds one raw boundary per k = 1 .. num_cols - 1, in order of k |
| SplitPoints.DetectSplitPoints | pdf_processor.py:14-29 | succeeds if and only if num_cols <= 1 or the page is at least 13 pixels wide; otherwise it reports the empty window of boundary 1; on success the result is the sorted raw points, with num_cols - 1 entries, ascending, a permutation of the raw points, each a column of the page |
| SplitPoints.CollectPoints | pdf_processor.py:20-28 | the boundary loop succeeds if and only if num_cols <= 1 or the page is at least 13 pixels wide, fails otherwise on boundary 1's empty window, and on success yields the raw boundaries in order of k |
| SplitPoints.RawPointsWithinPage | pdf_processor.py:25-27 | every raw boundary is a pixel column of the page |
| SplitPoints.WindowNonEmptyIff | pdf_processor.py:23-27 | a boundary's window is non-empty if and only if the page is at least 13 pixels wide (the margin is at least one pixel) |
| SplitPoints.ExpectedBelowWidth | pdf_processor.py:23 | the expected position `int(w k / n)` lies in [0, w), or is 0 on an empty page |
| SplitPoints.BlankPageBoundariesAtWindowStart | pdf_processor.py:24-27 | on an all-zero profile every boundary is the left end of its window |
| SplitPoints.FewColumnWindowsAreDisjoint | pdf_processor.py:23-26 | for 2 to 5 columns, the window of an earlier boundary ends before the window of a later one starts |
| SplitPoints.FirstWindowAvoidsLeftEdge | pdf_processor.py:23-25 | for 2 to 5 columns the first window starts at column 1 or later |
| SplitPoints.FewColumnBoundariesStrictlyIncrease | pdf_processor.py:14-29 | for 2 to 5 columns on a page at least 13 wide, the raw boundaries are strictly increasing and strictly inside (0, w), so sorting leaves them unchanged |
| SplitPoints.ManyColumnBoundariesCanCoincide | pdf_processor.py:20-29 | with 13 columns on a 100-pixel page two boundaries coincide, so the sorted list is not strictly increasing |
| SplitPoints.StrictHasNoRepeats | pdf_processor.py:29 | a strictly increasing list holds each value at most once |
| Tiling.Edges | pdf_processor.py:91 | `[0] + splits + [w]` has two entries more than splits, starts at 0, ends at w and holds split i at position i + 1 |
| Tiling.EdgesFromBoundaries | pdf_processor.py:91 | sorted boundaries within [0, w] give an edge list `[0] + splits + [w]` that is ascending, starts at 0, ends at w and has one entry more than there are columns |
| Tiling.CropsWidthPrefix | pdf_processor.py:94-96 | the first n column crops are edges[n] wide in total |
| Tiling.CropsTilePrefix | pdf_processor.py:94-96 | the first n column crops, joined left to right, give columns [0, edges[n]) of every row |
| Tiling.CropsTilePage | pdf_processor.py:94-96 | all the column crops together are w wide and, joined left to right, give back every row: no gap and no overlap |
| Tiling.ColumnOf | pdf_processor.py:91 | every pixel column x in [0, w) lies in exactly one column [edges[c], edges[c + 1]) |
| Tiling.MasksPartitionPage | pdf_processor.py:102-107 | in column j's mask a pixel keeps its colour when its x lies in column j and is white otherwise |
| Document.Flatten | pdf_processor.py:83-112 | the pages of the source pages in source-page order, page-major; positions and length are stated by FlattenAt and FlattenLength |
| Document.FlattenEmptyIff | app.py:88-133 | the document is empty if and only if no source page contributes a page |
| Document.FlattenAt | pdf_processor.py:83-112 | with n pages per source page the document has (number of source pages) × n pages, and page j of source page i is at position i n + j |
| Document.DocumentAt | pdf_processor.py:83-112 | FlattenAt for a document known to be the flattening of its page groups |
| Document.FlattenLength | pdf_processor.py:83-112 | with n pages per source page the document has (number of source pages) × n pages |
| ColumnProcessor.GrayImage | pdf_processor.py:15 | the gray image has the page's height and width |
| ColumnProcessor.SmoothedProfile | pdf_processor.py:15-18 | the smoothed profile has one entry per pixel column |
| ColumnProcessor.PageEdges | pdf_processor.py:90-91 | the edges of a page detection succeeds on are an ascending list from 0 to w with num_cols + 1 entries (2 for num_cols = 0) |
| ColumnProcessor.PageOutputs | pdf_processor.py:93-112 | a source page gives exactly num_cols pages |
| ColumnProcessor.Groups | pdf_processor.py:83-112 | there is one group of num_cols pages per source page |
| ColumnProcessor.MaskColumn | pdf_processor.py:102-107 | the copy painted white left of edges[j] when it is above 0, and right of edges[j + 1] when it is below w, is w × h; it keeps exactly the pixels of column j and is white elsewhere |
| ColumnProcessor.AppendColumns | pdf_processor.py:93-112 | the column loop appends page j for j = 0 .. num_cols - 1, in that order, after what was already there |
| ColumnProcessor.ColumnPage | pdf_processor.py:94-108 | the page for column j names the source page and column j, is as tall as the source and sized as its bitmap; in split mode it is edges[j + 1] - edges[j] wide, in any other mode as wide as the source |
| ColumnProcessor.Processed | pdf_processor.py:83-112 | the document of a run is the page groups in source-page order, page-major; its layout and length are stated by ProcessedPageAt and ProcessedPageCount |
| ColumnProcessor.ProcessFile | pdf_processor.py:83-114 | `process_file` ends with a document if and only if detection succeeds on every page, there is at least one page and num_cols is at least 1; a detection failure names the first page it fails on, and an empty document is the refused save of zero pages (line 114); on success the document is every source page's pages, page-major |
| ColumnProcessor.EmptyProduct | pdf_processor.py:114 | a product of two counts is zero exactly when one of them is, so the document is empty exactly when there are no pages or no columns |
| ColumnProcessor.ProcessPages | pdf_processor.py:83-112 | the loop succeeds if and only if detection succeeds on every page; a failure names the first page it fails on; on success the document is every source page's pages, page-major |
| ColumnProcessor.GroupsStep | pdf_processor.py:83-112 | handling one more source page appends exactly its num_cols outputs to the end of the document |
| ColumnProcessor.ProcessedPageAt | pdf_processor.py:83-112 | page i num_cols + j is page j of source page i: it names source page i and column j, is as tall as the source and sized as its bitmap; in split mode its bitmap is crop j, in any other mode the full-size mask of column j |
| ColumnProcessor.PositionInDocument | pdf_processor.py:83-112 | page i num_cols + j of the document is output j of source page i |
| ColumnProcessor.PageOutputsDescribed | pdf_processor.py:93-112 | output j of a source page is the page of column j, as ProcessedPageAt describes it |
| ColumnProcessor.ColumnPageDescribed | pdf_processor.py:94-96 | the page made for column j has the source page, column, size and bitmap that ProcessedPageAt describes |
| ColumnProcessor.ProcessedPageCount | pdf_processor.py:83-112 | the document has num_cols pages per source page |
| ColumnProcessor.SplitPagesTileSource | pdf_processor.py:93-100 | in split mode the num_cols pages made from a source page (the document's pages i num_cols onwards, by PositionInDocument) are w wide in total and, joined left to right in column order, give back every row of the source |
| ColumnProcessor.MaskPagesPartitionSource | pdf_processor.py:101-108 | in mask mode every page made from a source page is as large as the source, and shows a source pixel exactly on the page of its column, white on every other one |
| ColumnProcessor.OtherModesMask | pdf_processor.py:93-101 | any mode other than "split" gives the same document as "mask" |
| WebProcessor.PreviewPath | app.py:101-103 | the preview URL of output j is "/static/processed/preview_" followed by the digit j and ".png" |
| WebProcessor.WebSplit | app.py:93 | detection on a page succeeds if and only if it is at least 5 pixels wide, and the split lies strictly inside (0, w) |
| WebProcessor.MaskHalves | app.py:111-115 | the left copy keeps the pixels with x < split and is white elsewhere; the right copy is the reverse; both are w × h |
| WebProcessor.AppendSplit | app.py:95-108 | the split branch appends the left crop and then the right crop, each on a page of its own size, and records both previews on page 0 only |
| WebProcessor.AppendPage | app.py:95-126 | a page appends its split pages in split mode, its masked pages in mask mode and nothing in any other mode; previews are recorded for page 0 in a known mode only |
| WebProcessor.AppendMasked | app.py:110-126 | the mask branch appends the left and then the right masked copy, each on a w × h page, and records both previews on page 0 only |
| WebProcessor.AssemblePages | app.py:88-126 | the loop succeeds if and only if every page is at least 5 pixels wide, in every mode because detection runs first; a failure names the first narrow page; on success the document is every source page's pages, page-major, and the previews are those of page 0 |
| WebProcessor.WebGroupsStep | app.py:88-126 | handling one more source page appends exactly its outputs to the end of the document |
| WebProcessor.CompressPages | app.py:44-56 | compression gives one page per input page, in the same order and of the same size, showing that page re-rendered |
| WebProcessor.ProcessPdf | app.py:83-144 | `process_pdf` succeeds if and only if every page is at least 5 pixels wide, there is at least one page and the mode is "split" or "mask"; a narrow page is reported as the first one, and an empty assembled document as the refused save of zero pages (line 133); on success it returns one compressed page per assembled page, of the same size and in the same order, together with the page-0 previews |
| WebProcessor.WebPageOutputs | app.py:95-126 | a source page gives two pages in a known mode and none otherwise; page j names the source page and column j, is as tall as the source and sized as its bitmap |
| WebProcessor.WebGroups | app.py:88-126 | there is one group per source page, each holding as many pages as the mode gives per source page |
| WebProcessor.WebAssembled | app.py:88-126 | the assembled document is the page groups in source-page order, page-major; its layout and length are stated by WebPageAt and WebPageCount |
| WebProcessor.Previews | app.py:99-121 | there are two preview URLs, preview_0 and preview_1, when there is a page 0 and the mode is known, and none otherwise |
| WebProcessor.WebAgreesWithColumnProcessor | app.py:95-126 | in both known modes the two pages of a source page are the desktop tool's two column pages for the edge list [0, split, w] |
| WebProcessor.SplitHalvesTile | app.py:96-97 | the left crop is split × h and the right one (w - split) × h; their widths add up to w, and each source row is the left row followed by the right row |
| WebProcessor.MaskHalvesPartition | app.py:111-115 | both masked pages are w × h; a pixel left of the split is shown on the left page only and every other pixel on the right page only |
| WebProcessor.WebPageAt | app.py:88-126 | in a known mode page 2 i + j of the assembled document is output j of source page i: left then right, after every page of earlier source pages |
| WebProcessor.WebPageCount | app.py:88-126 | the assembled document has two pages per source page in a known mode, and none otherwise |
| WebProcessor.UnknownModeIsEmpty | app.py:95-126 | a mode other than "split" and "mask" gives an empty document |

## Left out

- The Flask routes, the upload and `.pdf` filename check, and `send_file` (app.py:157-185) are
  HTTP glue.
- The Tk window, its dialogs and the progress bar (pdf_processor.py:31-70, 84-85, 118-130) are
  user interface. The column-count choice of 2 to 5 appears only as the hypothesis of the strict
  boundary lemmas; the model allows any count.
- PyMuPDF opening, rendering (`get_pixmap` at 200, 180 and 120 DPI), `new_page`,
  `insert_image` and `save` are foreign calls:
  - the rendered bitmaps are the input;
  - re-rendering during compression is the `render` parameter;
  - a new page is a record of its size and the bitmap put on it.
- PNG and JPEG encoding and their quality settings (app.py:16-20, 51; pdf_processor.py:97-99,
  109-111) are lossy codecs. A page holds the bitmap itself.
  Two coinciding boundaries in split mode give a crop 0 pixels wide. The model emits it as a
  0 × h page, while the source JPEG-encodes it (pdf_processor.py:98) and inserts it into an
  empty rectangle (line 100), which most likely raises. The column counts the desktop tool
  offers (2 to 5) never reach this case (`SplitPoints.FewColumnBoundariesStrictlyIncrease`).
- `cv2.cvtColor` and `cv2.GaussianBlur` are parameters (`toGray`, `blur`), because they are
  floating-point image filters. The blurred profile is taken as integers, and the only
  assumption about the blur is that it keeps the length.
- DetectSplitPoint, BoundaryWindow, CenterWindow: instead of the floating-point truncations
  `int(w * 0.2)`, `int(w * 0.08)` and `int(w * k / num_cols)`, the model uses the integer
  divisions `w * 2 / 10`, `w * 8 / 100` and `w * k / num_cols`. For nonnegative page widths far
  below 2^53 the two forms agree, but that agreement is not proved.
- The preview PNG files (app.py:100-103, 118-121) are file output. The model keeps only the
  list of preview URLs, which come from page 0 alone.
- Temporary and output file names, `os.remove` of the temporary file, the `try`/`finally`
  closing of documents, and the printing and re-raising of errors (app.py:77-78, 138-155;
  pdf_processor.py:73-81, 115-123) are resource plumbing. The exception that ends a run is the
  error result.
- Saving (app.py:133, pdf_processor.py:114) is modelled only by its refusal of a document with
  no pages, which both front ends report as an error result (`ZeroPageSave`). Its writing of the
  file and its `deflate`/`garbage`/`clean` options are left to PyMuPDF.
- ProcessedPageAt, PositionInDocument, WebPageAt: the page position is
  an extra parameter k, with the requirement k == i * numCols + j (or k == 2 * i + j). This
  changes only how the statement is written, not what it says.
