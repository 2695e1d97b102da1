/** Rasters, stencils and placements: the values the compositor and the search pass around. */
module Raster {

  /** One brightness value of a PIL 'L' image, or one element of a numpy uint8 array. */
  type Byte = b: int | 0 <= b < 256

  /** A grayscale raster addressed img[y][x], rows first, the layout of a numpy array. */
  type Image = seq<seq<Byte>>

  /** Number of columns: the length of the first row (0 for a raster without rows). */
  function Width<T>(g: seq<seq<T>>): nat
  {
    if |g| == 0 then 0 else |g[0]|
  }

  /** Every row has the same length. */
  predicate IsGrid<T>(g: seq<seq<T>>)
  {
    forall r :: 0 <= r < |g| ==> |g[r]| == Width(g)
  }

  /** Two grids with the same number of rows and the same row lengths. */
  predicate SameShape<T, U>(a: seq<seq<T>>, b: seq<seq<U>>)
  {
    |a| == |b| && forall r :: 0 <= r < |a| ==> |a[r]| == |b[r]|
  }

  /** Column x, row y is a pixel of g. */
  predicate InCanvas<T>(g: seq<seq<T>>, x: int, y: int)
  {
    0 <= y < |g| && 0 <= x < Width(g)
  }

  /** A boolean foreground mask of at least one row and one column. */
  predicate IsStencil(s: seq<seq<bool>>)
  {
    IsGrid(s) && |s| >= 1 && |s[0]| >= 1
  }

  /** The resized and rotated shape as the mask `shape_array > 0`: height |s|, width |s[0]|. */
  type Stencil = s: seq<seq<bool>> | IsStencil(s) witness [[true]]

  /** The resize-then-rotate pipeline applied to the fixed template, as a function of scale and rotation. */
  type Transform = (real, real) -> Stencil

  /** One committed stamp: centre column x, centre row y, scale factor and rotation in degrees. */
  datatype Placement = Placement(x: int, y: int, scale: real, rotation: real)

  /** Every placement's centre is a pixel of the canvas. */
  predicate AllInCanvas(canvas: Image, ps: seq<Placement>)
  {
    forall k :: 0 <= k < |ps| ==> InCanvas(canvas, ps[k].x, ps[k].y)
  }
}
