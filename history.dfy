/** The placement history and its replay: folding the compositor over the recorded placements,
    in commit order, from the initial canvas. */
module History {
  import opened Raster
  import opened Compositor

  /** The canvas after stamping the placements of `ps`, first to last, onto `initial`. */
  function Replay(initial: Image, transform: Transform, ps: seq<Placement>): (out: Image)
    requires IsGrid(initial) && AllInCanvas(initial, ps)
    ensures SameShape(out, initial) && IsGrid(out)
    decreases |ps|
  {
    if ps == [] then initial
    else
      var p := ps[|ps| - 1];
      Stamp(Replay(initial, transform, ps[..|ps| - 1]), transform(p.scale, p.rotation), p.x, p.y)
  }

  /** Replaying one more placement is one more stamp on the replayed canvas. */
  lemma ReplaySnoc(initial: Image, transform: Transform, ps: seq<Placement>, p: Placement)
    requires IsGrid(initial) && AllInCanvas(initial, ps) && InCanvas(initial, p.x, p.y)
    ensures AllInCanvas(initial, ps + [p])
    ensures Replay(initial, transform, ps + [p]) ==
            Stamp(Replay(initial, transform, ps), transform(p.scale, p.rotation), p.x, p.y)
  {
    var out := Replay(initial, transform, ps);
    assert Width(out) == Width(initial);
    assert (ps + [p])[..|ps|] == ps;
  }

  /** Ink is never removed: every pixel of a replayed canvas is its initial value or 0, so the
      count of 0-pixels never falls and the total brightness never rises. */
  lemma {:induction false} ReplayDarkens(initial: Image, transform: Transform, ps: seq<Placement>)
    requires IsGrid(initial) && AllInCanvas(initial, ps)
    ensures Darkens(initial, Replay(initial, transform, ps))
    ensures ZeroCount(initial) <= ZeroCount(Replay(initial, transform, ps))
    ensures Brightness(Replay(initial, transform, ps)) <= Brightness(initial)
    decreases |ps|
  {
    var out := Replay(initial, transform, ps);
    if ps != [] {
      var p, prefix := ps[|ps| - 1], ps[..|ps| - 1];
      var before := Replay(initial, transform, prefix);
      ReplayDarkens(initial, transform, prefix);
      StampDarkens(before, transform(p.scale, p.rotation), p.x, p.y);
      DarkensTransitive(initial, before, out);
    }
    DarkensMonotone(initial, out);
  }

  /** Each commit only darkens the canvas it is applied to: replaying one more placement keeps
      every pixel or sets it to 0, so round over round the 0-pixel count never falls and the
      total brightness never rises. */
  lemma ReplayStepDarkens(initial: Image, transform: Transform, ps: seq<Placement>, p: Placement)
    requires IsGrid(initial) && AllInCanvas(initial, ps) && InCanvas(initial, p.x, p.y)
    ensures AllInCanvas(initial, ps + [p])
    ensures var before, after := Replay(initial, transform, ps), Replay(initial, transform, ps + [p]);
      && Darkens(before, after)
      && ZeroCount(before) <= ZeroCount(after)
      && Brightness(after) <= Brightness(before)
  {
    var before := Replay(initial, transform, ps);
    ReplaySnoc(initial, transform, ps, p);
    StampDarkens(before, transform(p.scale, p.rotation), p.x, p.y);
    DarkensMonotone(before, Replay(initial, transform, ps + [p]));
  }

  /** The replay loop: `current_canvas = canvas.copy()`, then one `place_shape` per recorded
      placement; `frames` holds the canvas after each placement, in order. */
  method ReplayPlacements(initial: Image, transform: Transform, ps: seq<Placement>)
    returns (final: Image, frames: seq<Image>)
    requires IsGrid(initial) && AllInCanvas(initial, ps)
    ensures final == Replay(initial, transform, ps)
    ensures |frames| == |ps|
    ensures forall k :: 0 <= k < |ps| ==> frames[k] == Replay(initial, transform, ps[..k + 1])
  {
    final := initial;
    frames := [];
    for k := 0 to |ps|
      invariant AllInCanvas(initial, ps[..k])
      invariant final == Replay(initial, transform, ps[..k])
      invariant |frames| == k
      invariant forall m :: 0 <= m < k ==> frames[m] == Replay(initial, transform, ps[..m + 1])
    {
      var p := ps[k];
      assert ps[..k + 1] == ps[..k] + [p];
      ReplaySnoc(initial, transform, ps[..k], p);
      final := PlaceShape(final, transform(p.scale, p.rotation), p.x, p.y);
      frames := frames + [final];
    }
    assert ps[..|ps|] == ps;
  }
}
