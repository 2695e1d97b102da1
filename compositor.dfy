/** The compositor of `place_shape`: centre the transformed stencil on a point, clip it to the
    canvas and force every covered foreground pixel of a copy of the canvas to 0. */
module Compositor {
  import opened Raster

  function Max(a: int, b: int): int { if a < b then b else a }
  function Min(a: int, b: int): int { if a < b then a else b }

  /** The canvas window [y1, y2) x [x1, x2) and the stencil window [sy1, sy2) x [sx1, sx2)
      that `place_shape` slices out before masking. */
  datatype Window = Window(x1: int, y1: int, x2: int, y2: int, sx1: int, sy1: int, sx2: int, sy2: int)

  /** Top-left corner of a stencil of height h and width w centred on (cx, cy): `//` on a
      non-negative size is Dafny's `/`. */
  function Left(w: nat, cx: int): int { cx - w / 2 }
  function Top(h: nat, cy: int): int { cy - h / 2 }

  /** The clipping arithmetic, on a canvas of `height` rows and `width` columns. */
  function Clip(height: nat, width: nat, h: nat, w: nat, cx: int, cy: int): Window
  {
    var x, y := Left(w, cx), Top(h, cy);
    var x1, y1 := Max(0, x), Max(0, y);
    var x2, y2 := Min(width, x + w), Min(height, y + h);
    var sx1, sy1 := Max(0, -x), Max(0, -y);
    Window(x1, y1, x2, y2, sx1, sy1, sx1 + x2 - x1, sy1 + y2 - y1)
  }

  /** Whatever the centre, the canvas window starts inside the canvas and ends no later than
      its edge, the stencil window starts at a non-negative offset, the two windows have the same
      extents, and they are aligned on the stencil's unclipped top-left corner. */
  lemma ClipAligned(height: nat, width: nat, h: nat, w: nat, cx: int, cy: int)
    ensures var win := Clip(height, width, h, w, cx, cy);
      && 0 <= win.x1 && win.x2 <= width && 0 <= win.y1 && win.y2 <= height
      && 0 <= win.sx1 && 0 <= win.sy1
      && win.sx2 - win.sx1 == win.x2 - win.x1 && win.sy2 - win.sy1 == win.y2 - win.y1
      && win.x1 - win.sx1 == Left(w, cx) && win.y1 - win.sy1 == Top(h, cy)
  {
  }

  /** With the centre on the canvas and a stencil of at least one pixel, both windows are
      non-empty, in bounds, of equal extent, and aligned on the stencil's top-left corner. */
  lemma ClipWellFormed(height: nat, width: nat, h: nat, w: nat, cx: int, cy: int)
    requires 0 <= cx < width && 0 <= cy < height && h >= 1 && w >= 1
    ensures var win := Clip(height, width, h, w, cx, cy);
      && 0 <= win.x1 < win.x2 <= width && 0 <= win.y1 < win.y2 <= height
      && win.sx2 - win.sx1 == win.x2 - win.x1 && win.sy2 - win.sy1 == win.y2 - win.y1
      && 0 <= win.sx1 < win.sx2 <= w && 0 <= win.sy1 < win.sy2 <= h
      && win.x1 - win.sx1 == Left(w, cx) && win.y1 - win.sy1 == Top(h, cy)
  {
  }

  /** The window `place_shape` uses for this canvas, stencil and centre. */
  function WindowOf(canvas: Image, stencil: Stencil, cx: int, cy: int): Window
  {
    Clip(|canvas|, Width(canvas), |stencil|, |stencil[0]|, cx, cy)
  }

  predicate InWindow(win: Window, r: int, c: int)
  {
    win.y1 <= r < win.y2 && win.x1 <= c < win.x2
  }

  /** Pixel (r, c) is in the canvas window and the matching stencil-window cell is foreground:
      the boolean index `mask[sy1:sy2, sx1:sx2]` applied to `canvas_array[y1:y2, x1:x2]`.
      The index guards always hold under ClipWellFormed (see StampAt). */
  predicate Hit(win: Window, stencil: Stencil, r: int, c: int)
  {
    && InWindow(win, r, c)
    && 0 <= win.sy1 + (r - win.y1) < |stencil| && 0 <= win.sx1 + (c - win.x1) < |stencil[0]|
    && stencil[win.sy1 + (r - win.y1)][win.sx1 + (c - win.x1)]
  }

  /** The canvas after `canvas_array[y1:y2, x1:x2][mask[sy1:sy2, sx1:sx2]] = 0`. */
  function Stamp(canvas: Image, stencil: Stencil, cx: int, cy: int): (out: Image)
    requires IsGrid(canvas) && InCanvas(canvas, cx, cy)
    ensures SameShape(out, canvas) && IsGrid(out)
  {
    var win := WindowOf(canvas, stencil, cx, cy);
    seq(|canvas|, r requires 0 <= r < |canvas| =>
      seq(Width(canvas), c requires 0 <= c < Width(canvas) =>
        if Hit(win, stencil, r, c) then 0 else canvas[r][c]))
  }

  /** One pixel of Stamp; inside the window the stencil index is always in range. */
  lemma StampAt(canvas: Image, stencil: Stencil, cx: int, cy: int, r: int, c: int)
    requires IsGrid(canvas) && InCanvas(canvas, cx, cy)
    requires 0 <= r < |canvas| && 0 <= c < Width(canvas)
    ensures var win := WindowOf(canvas, stencil, cx, cy);
      && (InWindow(win, r, c) ==> 0 <= win.sy1 + (r - win.y1) < |stencil| && 0 <= win.sx1 + (c - win.x1) < |stencil[0]|)
      && Stamp(canvas, stencil, cx, cy)[r][c] == if Hit(win, stencil, r, c) then 0 else canvas[r][c]
  {
    ClipWellFormed(|canvas|, Width(canvas), |stencil|, |stencil[0]|, cx, cy);
  }

  /** A raster that agrees with Stamp pixel by pixel is Stamp. */
  lemma StampFromPixels(canvas: Image, stencil: Stencil, cx: int, cy: int, out: Image)
    requires IsGrid(canvas) && InCanvas(canvas, cx, cy) && SameShape(out, canvas)
    requires forall r, c :: 0 <= r < |canvas| && 0 <= c < |canvas[r]| ==>
      out[r][c] == if Hit(WindowOf(canvas, stencil, cx, cy), stencil, r, c) then 0 else canvas[r][c]
    ensures out == Stamp(canvas, stencil, cx, cy)
  {
    var expected := Stamp(canvas, stencil, cx, cy);
    forall r | 0 <= r < |canvas|
      ensures out[r] == expected[r]
    {
      forall c | 0 <= c < |canvas[r]|
        ensures out[r][c] == expected[r][c]
      {
        StampAt(canvas, stencil, cx, cy, r, c);
      }
    }
  }

  /** Pixel (r, c) lies under a foreground cell of the stencil whose top-left corner is at
      (Top, Left); this says nothing about clipping. */
  predicate Covers(stencil: Stencil, cx: int, cy: int, r: int, c: int)
  {
    var top, left := Top(|stencil|, cy), Left(|stencil[0]|, cx);
    top <= r < top + |stencil| && left <= c < left + |stencil[0]| && stencil[r - top][c - left]
  }

  /** Clipping loses nothing and adds nothing: a canvas pixel becomes 0 exactly when the
      unclipped stencil covers it with foreground, and is otherwise its input value; pixels
      outside the clipped window are untouched. */
  lemma StampPixel(canvas: Image, stencil: Stencil, cx: int, cy: int, r: int, c: int)
    requires IsGrid(canvas) && InCanvas(canvas, cx, cy)
    requires 0 <= r < |canvas| && 0 <= c < Width(canvas)
    ensures Stamp(canvas, stencil, cx, cy)[r][c] == if Covers(stencil, cx, cy, r, c) then 0 else canvas[r][c]
    ensures !InWindow(WindowOf(canvas, stencil, cx, cy), r, c) ==> Stamp(canvas, stencil, cx, cy)[r][c] == canvas[r][c]
  {
    ClipWellFormed(|canvas|, Width(canvas), |stencil|, |stencil[0]|, cx, cy);
  }

  /** Every pixel of `after` is the pixel of `before` or 0: nothing is ever lightened. */
  ghost predicate Darkens(before: Image, after: Image)
  {
    SameShape(before, after) &&
    forall r, c :: 0 <= r < |before| && 0 <= c < |before[r]| ==> after[r][c] == before[r][c] || after[r][c] == 0
  }

  lemma StampDarkens(canvas: Image, stencil: Stencil, cx: int, cy: int)
    requires IsGrid(canvas) && InCanvas(canvas, cx, cy)
    ensures Darkens(canvas, Stamp(canvas, stencil, cx, cy))
  {
    forall r, c | 0 <= r < |canvas| && 0 <= c < |canvas[r]|
      ensures Stamp(canvas, stencil, cx, cy)[r][c] in {canvas[r][c], 0}
    {
      StampPixel(canvas, stencil, cx, cy, r, c);
    }
  }

  lemma DarkensTransitive(a: Image, b: Image, c: Image)
    requires Darkens(a, b) && Darkens(b, c)
    ensures Darkens(a, c)
  {
  }

  function RowZeros(row: seq<Byte>): nat
  {
    if |row| == 0 then 0 else (if row[0] == 0 then 1 else 0) + RowZeros(row[1..])
  }

  /** Number of fully dark pixels. */
  function ZeroCount(img: Image): nat
  {
    if |img| == 0 then 0 else RowZeros(img[0]) + ZeroCount(img[1..])
  }

  function RowBrightness(row: seq<Byte>): nat
  {
    if |row| == 0 then 0 else row[0] + RowBrightness(row[1..])
  }

  /** Sum of all pixel values. */
  function Brightness(img: Image): nat
  {
    if |img| == 0 then 0 else RowBrightness(img[0]) + Brightness(img[1..])
  }

  lemma {:induction false} RowDarkens(a: seq<Byte>, b: seq<Byte>)
    requires |a| == |b| && forall c :: 0 <= c < |a| ==> b[c] == a[c] || b[c] == 0
    ensures RowZeros(a) <= RowZeros(b) && RowBrightness(b) <= RowBrightness(a)
  {
    if |a| > 0 {
      RowDarkens(a[1..], b[1..]);
    }
  }

  /** Darkening never removes a zero pixel and never adds brightness. */
  lemma {:induction false} DarkensMonotone(a: Image, b: Image)
    requires Darkens(a, b)
    ensures ZeroCount(a) <= ZeroCount(b) && Brightness(b) <= Brightness(a)
  {
    if |a| > 0 {
      RowDarkens(a[0], b[0]);
      assert Darkens(a[1..], b[1..]) by {
        forall r, c | 0 <= r < |a[1..]| && 0 <= c < |a[1..][r]|
          ensures b[1..][r][c] == a[1..][r][c] || b[1..][r][c] == 0
        {
          assert a[1..][r] == a[r + 1] && b[1..][r] == b[r + 1];
        }
      }
      DarkensMonotone(a[1..], b[1..]);
    }
  }

  /** `new_canvas = canvas.copy()`, `np.array`, the masked slice assignment, `Image.fromarray`. */
  method PlaceShape(canvas: Image, stencil: Stencil, cx: int, cy: int) returns (out: Image)
    requires IsGrid(canvas) && InCanvas(canvas, cx, cy)
    ensures out == Stamp(canvas, stencil, cx, cy)
  {
    var height, width := |canvas|, Width(canvas);
    var a := new Byte[height, width];
    forall r, c | 0 <= r < height && 0 <= c < width {
      a[r, c] := canvas[r][c];
    }
    var win := Clip(height, width, |stencil|, |stencil[0]|, cx, cy);
    ClipWellFormed(height, width, |stencil|, |stencil[0]|, cx, cy);
    label Copied:
    forall r, c | win.y1 <= r < win.y2 && win.x1 <= c < win.x2 {
      a[r, c] := if stencil[win.sy1 + (r - win.y1)][win.sx1 + (c - win.x1)] then 0 else a[r, c];
    }
    assert forall r, c :: 0 <= r < height && 0 <= c < width ==>
      a[r, c] == if Hit(win, stencil, r, c) then 0 else canvas[r][c]
    by {
      forall r, c | 0 <= r < height && 0 <= c < width
        ensures a[r, c] == if Hit(win, stencil, r, c) then 0 else canvas[r][c]
      {
        assert old@Copied(a[r, c]) == canvas[r][c];
        if !InWindow(win, r, c) {
          assert a[r, c] == old@Copied(a[r, c]);
        }
      }
    }
    out := Snapshot(a);
    StampFromPixels(canvas, stencil, cx, cy, out);
  }

  /** `Image.fromarray`: the rows of a numpy array as an image value. */
  function Snapshot(a: array2<Byte>): (img: Image)
    reads a
    ensures |img| == a.Length0
    ensures forall r :: 0 <= r < a.Length0 ==> |img[r]| == a.Length1
    ensures forall r, c :: 0 <= r < a.Length0 && 0 <= c < a.Length1 ==> img[r][c] == a[r, c]
  {
    seq(a.Length0, r reads a requires 0 <= r < a.Length0 =>
      seq(a.Length1, c reads a requires 0 <= c < a.Length1 => a[r, c]))
  }
}
