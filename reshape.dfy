/**
 Fitting a face crop into the target size without distorting it: one scale
 factor for both axes, then black borders shared as evenly as possible
 between the two sides of each axis.
 */
module Reshape {
  import opened Images

  /** The OpenCV routines this step calls, whose pixel values are outside the
      model. `resize(img, h, w)` stands for `cv2.resize(img, (w, h))`: OpenCV
      reads its size argument as (columns, rows). */
  datatype PixelOps = PixelOps(toGray: Image -> Image, resize: (Image, nat, nat) -> Image)

  /** What is known of those routines: conversion to grey keeps the
      dimensions, and a resize returns exactly the dimensions asked for. */
  ghost predicate ShapeFaithful(ops: PixelOps) {
    (forall img :: ops.toGray(img).height == img.height && ops.toGray(img).width == img.width) &&
    (forall img, h: nat, w: nat :: ops.resize(img, h, w).height == h && ops.resize(img, h, w).width == w)
  }

  /** `target_size`: the first component is compared with rows, the second
      with columns. */
  type Size = (nat, nat)

  /** `min(target[0] / h, target[1] / w)` in exact arithmetic: the largest
      factor that scales both dimensions into the target, so that one of them
      reaches it exactly. */
  function ScaleFactor(h: nat, w: nat, target: Size): (f: real)
    requires h > 0 && w > 0
    ensures 0.0 <= f
    ensures h as real * f <= target.0 as real && w as real * f <= target.1 as real
    ensures h as real * f == target.0 as real || w as real * f == target.1 as real
  {
    var f0 := target.0 as real / h as real;
    var f1 := target.1 as real / w as real;
    assert h as real * f0 == target.0 as real;
    assert w as real * f1 == target.1 as real;
    if f0 <= f1 then f0 else f1
  }

  /** The size handed to `cv2.resize`, as (rows, columns): both dimensions
      multiplied by the scale factor and truncated by `int`. The result fits
      in the target and fills it along at least one axis. */
  function ResizedDims(h: nat, w: nat, target: Size): (d: Size)
    requires h > 0 && w > 0
    ensures d.0 <= target.0 && d.1 <= target.1
    ensures d.0 == target.0 || d.1 == target.1
    ensures var f := ScaleFactor(h, w, target);
            d.0 as real <= h as real * f < d.0 as real + 1.0 &&
            d.1 as real <= w as real * f < d.1 as real + 1.0
  {
    var f := ScaleFactor(h, w, target);
    var rows := (h as real * f).Floor;
    var cols := (w as real * f).Floor;
    (rows, cols)
  }

  /** The padding on the two sides of one axis: `diff // 2` before and the
      rest after, so the two differ by at most one pixel, the extra one after. */
  function Padding(diff: nat): (p: (nat, nat))
    ensures p.0 + p.1 == diff
    ensures p.0 <= p.1 <= p.0 + 1
  {
    (diff / 2, diff - diff / 2)
  }

  /** A row of `n` black pixels. */
  function ZeroRow(n: nat): (row: seq<int>)
    ensures |row| == n && forall j :: 0 <= j < n ==> row[j] == 0
  {
    seq(n, _ => 0)
  }

  /** Each row with `left` black pixels before it and `right` after it. */
  function PadRows(rows: seq<seq<int>>, left: nat, right: nat): (out: seq<seq<int>>)
    ensures |out| == |rows|
    ensures forall i :: 0 <= i < |rows| ==> out[i] == ZeroRow(left) + rows[i] + ZeroRow(right)
  {
    if rows == [] then []
    else [ZeroRow(left) + rows[0] + ZeroRow(right)] + PadRows(rows[1..], left, right)
  }

  /** `np.pad(img, ((top, bottom), (left, right)), 'constant')`: the image
      surrounded by black borders of the given widths. */
  function PadImage(img: Image, top: nat, bottom: nat, left: nat, right: nat): (r: Image)
    ensures r.height == top + img.height + bottom && r.width == left + img.width + right
    ensures forall i, j :: 0 <= i < r.height && 0 <= j < r.width ==>
              r.pixels[i][j] ==
                if top <= i < top + img.height && left <= j < left + img.width
                then img.pixels[i - top][j - left]
                else 0
  {
    var w := left + img.width + right;
    var middle := PadRows(img.pixels, left, right);
    var rows := seq(top, _ => ZeroRow(w)) + middle + seq(bottom, _ => ZeroRow(w));
    assert forall i :: top <= i < top + img.height ==> rows[i] == middle[i - top];
    Raster(top + img.height + bottom, w, rows)
  }

  /** The content on a black canvas of the target size, its top-left corner at
      half the spare rows and half the spare columns, rounded down. */
  function Centered(content: Image, target: Size): Image
    requires content.height <= target.0 && content.width <= target.1
  {
    var top := (target.0 - content.height) / 2;
    var left := (target.1 - content.width) / 2;
    Raster(target.0, target.1,
      seq(target.0, i =>
        seq(target.1, j =>
          if top <= i < top + content.height && left <= j < left + content.width
          then content.pixels[i - top][j - left]
          else 0)))
  }

  /** Padding the resized content by the split of `Padding` on each axis
      centres it on a canvas of exactly the target size. */
  lemma PadIsCentered(content: Image, target: Size)
    requires content.height <= target.0 && content.width <= target.1
    ensures var (top, bottom) := Padding(target.0 - content.height);
            var (left, right) := Padding(target.1 - content.width);
            PadImage(content, top, bottom, left, right) == Centered(content, target)
  {
    var (top, bottom) := Padding(target.0 - content.height);
    var (left, right) := Padding(target.1 - content.width);
    var p := PadImage(content, top, bottom, left, right);
    var c := Centered(content, target);
    assert top == (target.0 - content.height) / 2 && left == (target.1 - content.width) / 2;
    assert p.height == target.0 && p.width == target.1;
    forall i | 0 <= i < target.0
      ensures p.pixels[i] == c.pixels[i]
    {
      assert |p.pixels[i]| == target.1 == |c.pixels[i]|;
      forall j | 0 <= j < target.1
        ensures p.pixels[i][j] == c.pixels[i][j]
      {
        var inside := top <= i < top + content.height && left <= j < left + content.width;
        assert c.pixels[i][j] == if inside then content.pixels[i - top][j - left] else 0;
      }
    }
    assert p.pixels == c.pixels;
  }

  /** The image, converted to grey first when asked. */
  function Converted(img: Image, grayscale: bool, ops: PixelOps): Image {
    if grayscale then ops.toGray(img) else img
  }

  /** `reshape_face`: the crop scaled by one factor on both axes and centred
      on a black canvas of the target size, with the region passed through.
      A crop with no rows or columns fails in `cv2.cvtColor` when grey is
      asked for, and on the division otherwise; a resize to zero rows or
      columns fails in OpenCV. The final re-resize to the target
      is never taken: the padded image already has the target size. */
  function ReshapeFace(img: Image, region: Region, target: Size, grayscale: bool, ops: PixelOps)
    : (r: Result<(Image, Region)>)
    requires ShapeFaithful(ops)
    ensures Degenerate(img) && grayscale ==> r == Err(ConversionFailed)
    ensures Degenerate(img) && !grayscale ==> r == Err(ZeroDivision)
    ensures !Degenerate(img) ==>
              var d := ResizedDims(img.height, img.width, target);
              (r.Err? <==> d.0 == 0 || d.1 == 0) && (r.Err? ==> r.error == ResizeFailed)
    ensures r.Ok? ==> r.value.1 == region
    ensures r.Ok? ==> r.value.0.height == target.0 && r.value.0.width == target.1
    ensures r.Ok? ==>
              var d := ResizedDims(img.height, img.width, target);
              r.value.0 == Centered(ops.resize(Converted(img, grayscale, ops), d.0, d.1), target)
  {
    if grayscale && Degenerate(img) then Err(ConversionFailed)
    else
      var g := Converted(img, grayscale, ops);
      if g.height == 0 || g.width == 0 then Err(ZeroDivision)
      else
        var d := ResizedDims(g.height, g.width, target);
        if d.0 == 0 || d.1 == 0 then Err(ResizeFailed)
        else
          var small := ops.resize(g, d.0, d.1);
          var (top, bottom) := Padding(target.0 - small.height);
          var (left, right) := Padding(target.1 - small.width);
          var padded := PadImage(small, top, bottom, left, right);
          var out: Image := if (padded.height, padded.width) != target then ops.resize(padded, target.1, target.0) else padded;
          PadIsCentered(small, target);
          var res: (Image, Region) := (out, region);
          Ok(res)
  }
}
