/** Column edges `[0] + splits + [w]` and what they guarantee: the crops between consecutive
    edges tile the page, and every pixel column belongs to exactly one of the columns. */
module Tiling {

  import opened Raster
  import opened Sorting

  /** `edges = [0] + splits + [w]`. */
  function Edges(splits: seq<int>, w: nat): (e: seq<int>)
    ensures |e| == |splits| + 2 && e[0] == 0 && e[|e| - 1] == w
    ensures forall i :: 0 <= i < |splits| ==> e[i + 1] == splits[i]
  {
    [0] + splits + [w]
  }

  /** A non-decreasing list of edges from 0 to w. */
  predicate IsEdgeList(edges: seq<int>, w: nat) {
    |edges| >= 1 && edges[0] == 0 && edges[|edges| - 1] == w && Sorted(edges)
  }

  /** Sorted boundaries inside [0, w] make an edge list with one more column than boundaries. */
  lemma EdgesFromBoundaries(splits: seq<int>, w: nat)
    requires Sorted(splits)
    requires forall i :: 0 <= i < |splits| ==> 0 <= splits[i] <= w
    ensures IsEdgeList(Edges(splits, w), w) && |Edges(splits, w)| == |splits| + 2
  {
    var e := Edges(splits, w);
    forall i, j | 0 <= i < j < |e| ensures e[i] <= e[j] {
      if 0 < i && j < |e| - 1 {
        assert e[i] == splits[i - 1] && e[j] == splits[j - 1];
      } else if 0 < i {
        assert e[i] == splits[i - 1];
      } else if j < |e| - 1 {
        assert e[j] == splits[j - 1];
      }
    }
  }

  /** The rows y of `parts`, joined left to right. */
  function JoinRow(parts: seq<Bitmap>, y: nat): seq<Rgb>
    requires forall j :: 0 <= j < |parts| ==> parts[j].Valid() && y < parts[j].height
  {
    if parts == [] then []
    else
      var last := parts[|parts| - 1];
      assert last.Valid() && y < last.height;
      JoinRow(parts[..|parts| - 1], y) + last.pixels[y]
  }

  /** The widths of `parts`, added up. */
  function TotalWidth(parts: seq<Bitmap>): int {
    if parts == [] then 0 else TotalWidth(parts[..|parts| - 1]) + parts[|parts| - 1].width
  }

  /** `parts[j]` is the crop of columns edges[j] <= x < edges[j + 1], for each j < |parts|. */
  ghost predicate AreColumnCrops(img: Bitmap, edges: seq<int>, parts: seq<Bitmap>)
    requires img.Valid() && IsEdgeList(edges, img.width)
  {
    |parts| < |edges| &&
    forall j :: 0 <= j < |parts| ==>
      parts[j] == Crop(img, edges[j], edges[j + 1]) && parts[j].Valid() && parts[j].height == img.height
  }

  /** The first n crops are edges[n] wide in all. */
  lemma {:induction false} CropsWidthPrefix(img: Bitmap, edges: seq<int>, parts: seq<Bitmap>)
    requires img.Valid() && IsEdgeList(edges, img.width) && AreColumnCrops(img, edges, parts)
    ensures TotalWidth(parts) == edges[|parts|]
  {
    var n := |parts|;
    if n > 0 {
      var front := parts[..n - 1];
      assert AreColumnCrops(img, edges, front);
      CropsWidthPrefix(img, edges, front);
    }
  }

  /** The first n crops join up to columns [0, edges[n]) of every row. */
  lemma {:induction false} CropsTilePrefix(img: Bitmap, edges: seq<int>, parts: seq<Bitmap>, y: nat)
    requires img.Valid() && IsEdgeList(edges, img.width) && AreColumnCrops(img, edges, parts)
    requires y < img.height
    ensures JoinRow(parts, y) == img.pixels[y][..edges[|parts|]]
  {
    var n := |parts|;
    if n > 0 {
      var front := parts[..n - 1];
      assert AreColumnCrops(img, edges, front);
      CropsTilePrefix(img, edges, front, y);
      assert edges[0] <= edges[n - 1] <= edges[n] <= edges[|edges| - 1];
      var row := img.pixels[y];
      assert row[..edges[n - 1]] + row[edges[n - 1]..edges[n]] == row[..edges[n]];
    }
  }

  /** Split mode tiles the page: the crops between consecutive edges, joined left to right,
      give back every row of the page, and their widths add up to the page width, so the
      columns neither overlap nor leave a gap. */
  lemma CropsTilePage(img: Bitmap, edges: seq<int>, parts: seq<Bitmap>)
    requires img.Valid() && IsEdgeList(edges, img.width) && AreColumnCrops(img, edges, parts)
    requires |parts| == |edges| - 1
    ensures TotalWidth(parts) == img.width
    ensures forall y :: 0 <= y < img.height ==> JoinRow(parts, y) == img.pixels[y]
  {
    CropsWidthPrefix(img, edges, parts);
    forall y | 0 <= y < img.height ensures JoinRow(parts, y) == img.pixels[y] {
      CropsTilePrefix(img, edges, parts, y);
    }
  }

  /** The column [edges[j], edges[j + 1]) that holds pixel column x, searching from column j. */
  function ColumnFrom(edges: seq<int>, w: nat, x: int, j: nat): (c: nat)
    requires IsEdgeList(edges, w) && j < |edges| - 1 && edges[j] <= x < w
    ensures j <= c < |edges| - 1 && edges[c] <= x < edges[c + 1]
    decreases |edges| - j
  {
    if x < edges[j + 1] then j else ColumnFrom(edges, w, x, j + 1)
  }

  /** The one column that holds pixel column x: x lies in [edges[c], edges[c + 1]) for c and for
      no other column. */
  function ColumnOf(edges: seq<int>, w: nat, x: int): (c: nat)
    requires IsEdgeList(edges, w) && 0 <= x < w
    ensures c < |edges| - 1 && edges[c] <= x < edges[c + 1]
    ensures forall j :: 0 <= j < |edges| - 1 && edges[j] <= x < edges[j + 1] ==> j == c
  {
    ColumnFrom(edges, w, x, 0)
  }

  /** Mask mode partitions the page: in the mask of column j a pixel keeps its source colour
      when its x lies in column j and is white otherwise, so each source pixel is shown by the
      mask of exactly one column. */
  lemma MasksPartitionPage(img: Bitmap, edges: seq<int>, j: nat, y: nat, x: nat)
    requires img.Valid() && IsEdgeList(edges, img.width) && j < |edges| - 1
    requires y < img.height && x < img.width
    ensures KeepColumns(img, edges[j], edges[j + 1]).pixels[y][x] ==
      if j == ColumnOf(edges, img.width, x) then img.pixels[y][x] else White
  {
  }
}
