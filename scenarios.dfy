/** Concrete runs of the search that exhibit what the loop does and does not promise. */
module Scenarios {
  import opened Raster
  import opened Metric
  import opened Compositor
  import opened Search

  /** A percentile stand-in: the value of the last pixel, which is always bracketed. */
  function LastPixel(d: Image): real
  {
    if |d| > 0 && |d[|d| - 1]| > 0 then d[|d| - 1][|d[|d| - 1]| - 1] as real else 0.0
  }

  lemma LastPixelIsPercentile()
    ensures ValidPercentile(LastPixel)
  {
    forall d: Image | IsGrid(d) && |d| > 0 && Width(d) > 0
      ensures Bracketed(d, LastPixel(d))
    {
      var r, c := |d| - 1, Width(d) - 1;
      assert |d[r]| == Width(d);
      assert d[r][c] as real == LastPixel(d);
    }
  }

  /** A single-pixel stencil, whatever the scale and rotation. */
  function Dot(scale: real, rotation: real): Stencil
  {
    [[true]]
  }

  /** Every draw picks candidate 0. */
  function FirstPick(round: nat, trial: nat, n: nat): Draw
  {
    Draw(0, 1.0, 0.0)
  }

  /** The inputs of the scenario: a target whose left pixel is darker than the canvas's. */
  predicate RegressInputs(target: Image, canvas: Image)
  {
    target == [[200, 255]] && canvas == [[255, 255]]
  }

  lemma ExampleDiff(target: Image, canvas: Image)
    requires RegressInputs(target, canvas)
    ensures Compatible(target, canvas) && Diff(target, canvas) == [[201, 0]]
  {
    var d := Diff(target, canvas);
    assert d[0][0] == 201 && d[0][1] == 0;
    assert d[0] == [201, 0];
  }

  lemma ExampleCandidates(target: Image, canvas: Image)
    requires RegressInputs(target, canvas)
    ensures Compatible(target, canvas) && RoundCandidates(target, canvas, LastPixel) == [Coord(0, 0)]
  {
    ExampleDiff(target, canvas);
    var d := Diff(target, canvas);
    assert LastPixel(d) == 0.0;
    assert RowCandidates(d[0], 0, 0.0, 2) == [];
    assert RowCandidates(d[0], 0, 0.0, 1) == [];
    assert RowCandidates(d[0], 0, 0.0, 0) == [Coord(0, 0)];
    assert CandidatesFrom(d, 0.0, 1) == [];
  }

  lemma ExampleStamp(target: Image, canvas: Image, stencil: Stencil)
    requires RegressInputs(target, canvas) && stencil == [[true]]
    ensures IsGrid(canvas) && InCanvas(canvas, 0, 0) && Stamp(canvas, stencil, 0, 0) == [[0, 255]]
  {
    var out := Stamp(canvas, stencil, 0, 0);
    StampPixel(canvas, stencil, 0, 0, 0, 0);
    StampPixel(canvas, stencil, 0, 0, 0, 1);
    assert |out| == 1 && |out[0]| == 2 && out[0][0] == 0 && out[0][1] == 255;
    assert out[0] == [0, 255];
  }

  lemma ExampleScores(target: Image, canvas: Image, darkened: Image)
    requires RegressInputs(target, canvas) && darkened == [[0, 255]]
    ensures SquaredError(target, darkened) == 40000 && SquaredError(target, canvas) == 3025
  {
    assert RowSquaredError(target[0][2..], darkened[0][2..]) == 0;
    assert RowSquaredError(target[0][1..], darkened[0][1..]) == 0;
    assert RowSquaredError(target[0], darkened[0]) == 40000;
    assert RowSquaredError(target[0][1..], canvas[0][1..]) == 0;
    assert RowSquaredError(target[0], canvas[0]) == 3025;
  }

  /** Every trial of round 0 stamps the single candidate and scores 40000. */
  lemma ExampleCommit(target: Image, canvas: Image)
    requires RegressInputs(target, canvas)
    ensures ValidRng(FirstPick) && Compatible(target, canvas)
    ensures Commit(target, canvas, Dot, LastPixel, FirstPick, 0)
         == Some(Trial(Placement(0, 0, 1.0, 0.0), [[0, 255]], 40000))
  {
    ExampleCandidates(target, canvas);
    ExampleStamp(target, canvas, Dot(1.0, 0.0));
    ExampleScores(target, canvas, [[0, 255]]);
    var ts := RoundTrials(target, canvas, Dot, LastPixel, FirstPick, 0);
    var best := Trial(Placement(0, 0, 1.0, 0.0), [[0, 255]], 40000);
    assert RunTrial(target, canvas, Dot, [Coord(0, 0)], Draw(0, 1.0, 0.0)) == best;
    forall k | 0 <= k < |ts|
      ensures ts[k] == best
    {
      RoundTrialAt(target, canvas, Dot, LastPixel, FirstPick, 0, k);
    }
    FirstMinIsFirst(ts, 0);
  }

  /** One round of the search on the scenario commits that trial. */
  lemma ExampleSearch(target: Image, canvas: Image)
    requires RegressInputs(target, canvas)
    ensures ValidRng(FirstPick) && Compatible(target, canvas)
    ensures SearchFrom(target, canvas, [], Dot, LastPixel, FirstPick, 0, 1) == ([[0, 255]], [Placement(0, 0, 1.0, 0.0)])
  {
    ExampleCommit(target, canvas);
    var darkened: Image := [[0, 255]];
    var p := Placement(0, 0, 1.0, 0.0);
    assert Compatible(target, darkened);
    assert [] + [p] == [p];
    assert SearchFrom(target, darkened, [p], Dot, LastPixel, FirstPick, 1, 1) == (darkened, [p]);
  }

  /** The best trial of a round is committed even when it is worse than the canvas it started
      from: on target [[200, 255]] and canvas [[255, 255]] the only candidate is the left pixel
      (uint8 difference 201 above the threshold 0), stamping it black raises the error from
      55^2 to 200^2, and one round still commits it. */
  lemma CommitMayRegress(target: Image, canvas: Image)
    requires RegressInputs(target, canvas)
    ensures ValidRng(FirstPick) && ValidPercentile(LastPixel) && Compatible(target, canvas)
    ensures SearchFrom(target, canvas, [], Dot, LastPixel, FirstPick, 0, 1) == ([[0, 255]], [Placement(0, 0, 1.0, 0.0)])
    ensures SquaredError(target, [[0, 255]]) > SquaredError(target, canvas)
  {
    LastPixelIsPercentile();
    ExampleSearch(target, canvas);
    ExampleScores(target, canvas, [[0, 255]]);
  }
}
