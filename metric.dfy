/** The error metric: sum of squared pixel differences, and the mean squared error built from it. */
module Metric {
  import opened Raster

  function Square(d: int): nat
  {
    d * d
  }

  /** Sum of the squared differences of two rows of equal length. */
  function RowSquaredError(a: seq<Byte>, b: seq<Byte>): (s: nat)
    requires |a| == |b|
    ensures s == 0 <==> a == b
    decreases |a|
  {
    if |a| == 0 then 0
    else
      var rest := RowSquaredError(a[1..], b[1..]);
      assert a == [a[0]] + a[1..] && b == [b[0]] + b[1..];
      Square(a[0] as int - b[0] as int) + rest
  }

  /** Sum over all pixels of (a - b)^2, computed on unbounded integers (no uint8 wrap-around). */
  function SquaredError(a: Image, b: Image): (s: nat)
    requires SameShape(a, b)
    ensures s == 0 <==> a == b
    decreases |a|
  {
    if |a| == 0 then 0
    else
      var rest := SquaredError(a[1..], b[1..]);
      assert a == [a[0]] + a[1..] && b == [b[0]] + b[1..];
      RowSquaredError(a[0], b[0]) + rest
  }

  /** The mean of the squared differences over the H x W pixels: never negative, and 0
      exactly when the two rasters are equal. */
  function MeanSquaredError(a: Image, b: Image): (m: real)
    requires SameShape(a, b) && IsGrid(a) && |a| > 0 && Width(a) > 0
    ensures m >= 0.0
    ensures m == 0.0 <==> a == b
  {
    SquaredError(a, b) as real / (|a| * Width(a)) as real
  }

  /** Dividing by the fixed pixel count keeps every comparison: ranking trials by the integer
      sum of squares is ranking them by mean squared error. */
  lemma MeanSquaredErrorOrder(a: Image, b1: Image, b2: Image)
    requires SameShape(a, b1) && SameShape(a, b2) && IsGrid(a) && |a| > 0 && Width(a) > 0
    ensures MeanSquaredError(a, b1) < MeanSquaredError(a, b2) <==> SquaredError(a, b1) < SquaredError(a, b2)
  {
    QuotientOrder(SquaredError(a, b1) as real, SquaredError(a, b2) as real, (|a| * Width(a)) as real);
  }

  lemma QuotientOrder(x: real, y: real, n: real)
    requires n > 0.0
    ensures x / n < y / n <==> x < y
  {
    assert y / n - x / n == (y - x) / n;
    if x < y {
      assert (y - x) / n > 0.0;
    } else {
      assert (x - y) / n >= 0.0;
    }
  }
}
