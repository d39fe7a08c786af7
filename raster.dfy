/** RGB bitmaps and the two pixel operations the pipeline uses on them:
    cropping a band of columns and painting a band of columns white. */
module Raster {

  newtype Byte = x: int | 0 <= x < 256

  /** One RGB pixel, as rendered with no alpha channel. */
  datatype Rgb = Rgb(r: Byte, g: Byte, b: Byte)

  /** The fill colour of every mask, (255, 255, 255). */
  const White := Rgb(255, 255, 255)

  /** A rendered page: `pixels[y][x]` is the pixel in row y, column x. */
  datatype Bitmap = Bitmap(width: nat, height: nat, pixels: seq<seq<Rgb>>) {
    predicate Valid() {
      |pixels| == height && forall y :: 0 <= y < height ==> |pixels[y]| == width
    }
  }

  /** The sub-image of columns x0 <= x < x1 over the full height. */
  function Crop(img: Bitmap, x0: nat, x1: nat): (c: Bitmap)
    requires img.Valid() && x0 <= x1 <= img.width
    ensures c.Valid() && c.width == x1 - x0 && c.height == img.height
    ensures forall y, x :: 0 <= y < c.height && 0 <= x < c.width ==>
      c.pixels[y][x] == img.pixels[y][x0 + x]
  {
    Bitmap(x1 - x0, img.height, seq(img.height, y requires 0 <= y < img.height => img.pixels[y][x0..x1]))
  }

  /** The image a mask leaves: columns lo <= x < hi as in `img`, every other pixel white. */
  function KeepColumns(img: Bitmap, lo: int, hi: int): (m: Bitmap)
    requires img.Valid()
    ensures m.Valid() && m.width == img.width && m.height == img.height
  {
    Bitmap(img.width, img.height,
      seq(img.height, y requires 0 <= y < img.height =>
        seq(img.width, x requires 0 <= x < img.width =>
          if lo <= x < hi then img.pixels[y][x] else White)))
  }

  /** `img.copy()`: a fresh pixel buffer holding the image. */
  method CopyToBuffer(img: Bitmap) returns (a: array2<Rgb>)
    requires img.Valid()
    ensures fresh(a) && a.Length0 == img.height && a.Length1 == img.width
    ensures forall y, x :: 0 <= y < a.Length0 && 0 <= x < a.Length1 ==> a[y, x] == img.pixels[y][x]
  {
    a := new Rgb[img.height, img.width]((y, x) requires 0 <= y < img.height && 0 <= x < img.width => img.pixels[y][x]);
  }

  /** The image a pixel buffer currently holds. */
  function Snapshot(a: array2<Rgb>): (img: Bitmap)
    reads a
    ensures img.Valid() && img.width == a.Length1 && img.height == a.Length0
    ensures forall y, x :: 0 <= y < a.Length0 && 0 <= x < a.Length1 ==> img.pixels[y][x] == a[y, x]
  {
    Bitmap(a.Length1, a.Length0,
      seq(a.Length0, y requires 0 <= y < a.Length0 reads a =>
        seq(a.Length1, x requires 0 <= x < a.Length1 reads a => a[y, x])))
  }

  /** `paste((255, 255, 255), box=(x0, 0, x1, h))`: paints columns x0 <= x < x1 white in every row
      and leaves every other pixel as it was. */
  method PaintWhite(a: array2<Rgb>, x0: nat, x1: nat)
    requires x0 <= x1 <= a.Length1
    modifies a
    ensures forall y, x :: 0 <= y < a.Length0 && 0 <= x < a.Length1 ==>
      a[y, x] == if x0 <= x < x1 then White else old(a[y, x])
  {
    var y := 0;
    while y < a.Length0
      invariant 0 <= y <= a.Length0
      invariant forall r, x :: 0 <= r < a.Length0 && 0 <= x < a.Length1 ==>
        a[r, x] == if r < y && x0 <= x < x1 then White else old(a[r, x])
    {
      var x := x0;
      while x < x1
        invariant x0 <= x <= x1
        invariant forall r, c :: 0 <= r < a.Length0 && 0 <= c < a.Length1 ==>
          a[r, c] == if (r < y && x0 <= c < x1) || (r == y && x0 <= c < x) then White else old(a[r, c])
      {
        a[y, x] := White;
        x := x + 1;
      }
      y := y + 1;
    }
  }

  /** Equal size and equal pixels make equal bitmaps. */
  lemma BitmapExt(p: Bitmap, q: Bitmap)
    requires p.Valid() && q.Valid() && p.width == q.width && p.height == q.height
    requires forall y, x :: 0 <= y < p.height && 0 <= x < p.width ==> p.pixels[y][x] == q.pixels[y][x]
    ensures p == q
  {
    assert forall y :: 0 <= y < p.height ==> p.pixels[y] == q.pixels[y] by {
      forall y | 0 <= y < p.height ensures p.pixels[y] == q.pixels[y] {
        assert forall x :: 0 <= x < p.width ==> p.pixels[y][x] == q.pixels[y][x];
      }
    }
  }
}
