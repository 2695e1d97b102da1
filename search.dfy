/** The greedy placement search of `optimize_shape_placement`: per round, pick candidate centres
    where the uint8 difference to the target is above a percentile threshold, run a fixed number
    of random trials on the current canvas, and commit the first trial with the smallest error. */
module Search {
  import opened Raster
  import opened Metric
  import opened Compositor
  import opened History

  datatype Option<T> = None | Some(value: T)

  /** Trials per round (`for _ in range(100)`). */
  const TrialCount: nat := 100

  /** A pixel coordinate as `np.where` reports it: row y, column x. */
  datatype Coord = Coord(y: int, x: int)

  /** One draw of the random source in a trial: the candidate index `random.randint(0, n - 1)`,
      and the scale and rotation drawn by `random.uniform`. */
  datatype Draw = Draw(pick: nat, scale: real, rotation: real)

  /** The random source, as an oracle: the draw of trial j of round i when n candidates exist. */
  type Rng = (nat, nat, nat) -> Draw

  /** `random.randint(0, n - 1)` stays in range. */
  ghost predicate ValidRng(rng: Rng)
  {
    forall i, j, n :: 0 < n ==> rng(i, j, n).pick < n
  }

  /** The percentile threshold, as an oracle on the difference raster. */
  type Percentile = Image -> real

  /** min(d) <= t <= max(d), which every percentile of a non-empty raster satisfies. */
  ghost predicate Bracketed(d: Image, t: real)
  {
    && (exists r, c :: 0 <= r < |d| && 0 <= c < |d[r]| && d[r][c] as real <= t)
    && (exists r, c :: 0 <= r < |d| && 0 <= c < |d[r]| && d[r][c] as real >= t)
  }

  ghost predicate ValidPercentile(pct: Percentile)
  {
    forall d :: IsGrid(d) && |d| > 0 && Width(d) > 0 ==> Bracketed(d, pct(d))
  }

  /** The canvas is a rectangular raster of the target's dimensions. */
  predicate Compatible(target: Image, canvas: Image)
  {
    IsGrid(canvas) && SameShape(target, canvas)
  }

  /** `target_array - current_canvas_array` on uint8 arrays: the difference modulo 256. */
  function Diff(target: Image, canvas: Image): (d: Image)
    requires Compatible(target, canvas)
    ensures SameShape(d, canvas) && IsGrid(d)
  {
    seq(|canvas|, r requires 0 <= r < |canvas| =>
      seq(Width(canvas), c requires 0 <= c < Width(canvas) =>
        (target[r][c] as int - canvas[r][c] as int) % 256))
  }

  /** Adding the canvas back to the difference, again modulo 256, gives the target. */
  lemma DiffRestoresTarget(target: Image, canvas: Image, r: nat, c: nat)
    requires Compatible(target, canvas) && r < |canvas| && c < |canvas[r]|
    ensures (Diff(target, canvas)[r][c] as int + canvas[r][c] as int) % 256 == target[r][c]
  {
    DiffCases(target, canvas, r, c);
  }

  /** The wrap-around in words: where the canvas is at most as bright as the target the
      difference is target - canvas; where the canvas is brighter it is 256 - (canvas - target). */
  lemma DiffCases(target: Image, canvas: Image, r: nat, c: nat)
    requires Compatible(target, canvas) && r < |canvas| && c < |canvas[r]|
    ensures canvas[r][c] <= target[r][c] ==> Diff(target, canvas)[r][c] == target[r][c] - canvas[r][c]
    ensures canvas[r][c] > target[r][c] ==> Diff(target, canvas)[r][c] == 256 - (canvas[r][c] - target[r][c])
  {
    assert Diff(target, canvas)[r][c] == (target[r][c] as int - canvas[r][c] as int) % 256;
  }

  /** Row-major order, the order of `np.where`'s output. */
  predicate Before(p: Coord, q: Coord)
  {
    p.y < q.y || (p.y == q.y && p.x < q.x)
  }

  /** Strictly increasing in row-major order. */
  predicate RowMajor(cs: seq<Coord>)
  {
    forall k, l :: 0 <= k < l < |cs| ==> Before(cs[k], cs[l])
  }

  /** The columns from x on of row y whose value exceeds t, left to right. */
  function RowCandidates(row: seq<Byte>, y: nat, t: real, x: nat): (cs: seq<Coord>)
    ensures forall k :: 0 <= k < |cs| ==> cs[k].y == y && x <= cs[k].x < |row| && row[cs[k].x] as real > t
    decreases |row| - x
  {
    if x >= |row| then []
    else (if row[x] as real > t then [Coord(y, x)] else []) + RowCandidates(row, y, t, x + 1)
  }

  /** The pixels from row y on whose value exceeds t, in row-major order. */
  function CandidatesFrom(d: Image, t: real, y: nat): (cs: seq<Coord>)
    ensures forall k :: 0 <= k < |cs| ==>
      y <= cs[k].y < |d| && 0 <= cs[k].x < |d[cs[k].y]| && d[cs[k].y][cs[k].x] as real > t
    decreases |d| - y
  {
    if y >= |d| then []
    else RowCandidates(d[y], y, t, 0) + CandidatesFrom(d, t, y + 1)
  }

  /** `np.where(diff > threshold)`: only pixels of d above t (see `CandidatesExact` for the rest). */
  function Candidates(d: Image, t: real): (cs: seq<Coord>)
    ensures forall k :: 0 <= k < |cs| ==>
      0 <= cs[k].y < |d| && 0 <= cs[k].x < |d[cs[k].y]| && d[cs[k].y][cs[k].x] as real > t
  {
    CandidatesFrom(d, t, 0)
  }

  lemma {:induction false} RowCandidatesComplete(row: seq<Byte>, y: nat, t: real, x: nat)
    ensures forall c :: x <= c < |row| && row[c] as real > t ==> Coord(y, c) in RowCandidates(row, y, t, x)
    decreases |row| - x
  {
    if x < |row| {
      RowCandidatesComplete(row, y, t, x + 1);
    }
  }

  lemma {:induction false} RowCandidatesOrdered(row: seq<Byte>, y: nat, t: real, x: nat)
    ensures RowMajor(RowCandidates(row, y, t, x))
    decreases |row| - x
  {
    if x < |row| {
      var head, rest := if row[x] as real > t then [Coord(y, x)] else [], RowCandidates(row, y, t, x + 1);
      RowCandidatesOrdered(row, y, t, x + 1);
      var cs := head + rest;
      forall k, l | 0 <= k < l < |cs|
        ensures Before(cs[k], cs[l])
      {
        assert cs[l] == rest[l - |head|];
        if k < |head| {
          assert cs[k] == Coord(y, x);
        } else {
          assert cs[k] == rest[k - |head|];
        }
      }
    }
  }

  lemma {:induction false} CandidatesFromComplete(d: Image, t: real, y: nat)
    ensures forall r, c :: y <= r < |d| && 0 <= c < |d[r]| && d[r][c] as real > t ==> Coord(r, c) in CandidatesFrom(d, t, y)
    decreases |d| - y
  {
    if y < |d| {
      RowCandidatesComplete(d[y], y, t, 0);
      CandidatesFromComplete(d, t, y + 1);
    }
  }

  lemma {:induction false} CandidatesFromOrdered(d: Image, t: real, y: nat)
    ensures RowMajor(CandidatesFrom(d, t, y))
    decreases |d| - y
  {
    if y < |d| {
      var row, rest := RowCandidates(d[y], y, t, 0), CandidatesFrom(d, t, y + 1);
      RowCandidatesOrdered(d[y], y, t, 0);
      CandidatesFromOrdered(d, t, y + 1);
      var cs := row + rest;
      forall k, l | 0 <= k < l < |cs|
        ensures Before(cs[k], cs[l])
      {
        if l < |row| {
          assert cs[k] == row[k] && cs[l] == row[l];
        } else if k < |row| {
          assert cs[k] == row[k] && cs[l] == rest[l - |row|];
        } else {
          assert cs[k] == rest[k - |row|] && cs[l] == rest[l - |row|];
        }
      }
    }
  }

  /** `np.where(diff > threshold)` exactly: the pixels of d above t, all of them, in strictly
      increasing row-major order (so each once). */
  lemma CandidatesExact(d: Image, t: real)
    ensures var cs := Candidates(d, t);
      && (forall k :: 0 <= k < |cs| ==>
            0 <= cs[k].y < |d| && 0 <= cs[k].x < |d[cs[k].y]| && d[cs[k].y][cs[k].x] as real > t)
      && (forall r, c :: 0 <= r < |d| && 0 <= c < |d[r]| && d[r][c] as real > t ==> Coord(r, c) in cs)
      && RowMajor(cs)
  {
    CandidatesFromComplete(d, t, 0);
    CandidatesFromOrdered(d, t, 0);
  }

  lemma {:induction false} NoRowCandidates(row: seq<Byte>, y: nat, t: real, x: nat)
    requires forall c :: x <= c < |row| ==> row[c] as real <= t
    ensures RowCandidates(row, y, t, x) == []
    decreases |row| - x
  {
    if x < |row| {
      NoRowCandidates(row, y, t, x + 1);
    }
  }

  lemma {:induction false} NoCandidatesFrom(d: Image, t: real, y: nat)
    requires forall r, c :: y <= r < |d| && 0 <= c < |d[r]| ==> d[r][c] as real <= t
    ensures CandidatesFrom(d, t, y) == []
    decreases |d| - y
  {
    if y < |d| {
      NoRowCandidates(d[y], y, t, 0);
      NoCandidatesFrom(d, t, y + 1);
    }
  }

  /** There is no candidate exactly when no pixel of d lies above t. */
  lemma CandidatesEmptyIff(d: Image, t: real)
    ensures Candidates(d, t) == [] <==> forall r, c :: 0 <= r < |d| && 0 <= c < |d[r]| ==> d[r][c] as real <= t
  {
    CandidatesExact(d, t);
    if forall r, c :: 0 <= r < |d| && 0 <= c < |d[r]| ==> d[r][c] as real <= t {
      NoCandidatesFrom(d, t, 0);
    }
  }

  /** If every difference has the same value, no pixel lies above a bracketed threshold. */
  lemma AllEqualNoCandidates(d: Image, t: real, v: Byte)
    requires Bracketed(d, t)
    requires forall r, c :: 0 <= r < |d| && 0 <= c < |d[r]| ==> d[r][c] == v
    ensures Candidates(d, t) == []
  {
    var r, c :| 0 <= r < |d| && 0 <= c < |d[r]| && d[r][c] as real <= t;
    CandidatesEmptyIff(d, t);
  }

  /** The candidate centres of a round: lines 86-87. */
  function RoundCandidates(target: Image, canvas: Image, pct: Percentile): (cs: seq<Coord>)
    requires Compatible(target, canvas)
    ensures forall k :: 0 <= k < |cs| ==> InCanvas(canvas, cs[k].x, cs[k].y)
  {
    var d := Diff(target, canvas);
    Candidates(d, pct(d))
  }

  /** A rendered trial: its placement, the canvas it produces and that canvas's error. */
  datatype Trial = Trial(placement: Placement, canvas: Image, score: nat)

  /** The trial was rendered from `canvas` by `place_shape` and scored against `target`. */
  ghost predicate RenderedFrom(target: Image, canvas: Image, transform: Transform, t: Trial)
  {
    var p := t.placement;
    && Compatible(target, canvas)
    && InCanvas(canvas, p.x, p.y)
    && t.canvas == Stamp(canvas, transform(p.scale, p.rotation), p.x, p.y)
    && t.score == SquaredError(target, t.canvas)
  }

  /** One trial (lines 90-98): the picked candidate as centre, stamped on the current canvas. */
  function RunTrial(target: Image, canvas: Image, transform: Transform, cands: seq<Coord>, draw: Draw): (t: Trial)
    requires Compatible(target, canvas) && draw.pick < |cands|
    requires forall k :: 0 <= k < |cands| ==> InCanvas(canvas, cands[k].x, cands[k].y)
    ensures Compatible(target, t.canvas)
    ensures t.placement.x == cands[draw.pick].x && t.placement.y == cands[draw.pick].y
  {
    var p := cands[draw.pick];
    var out := Stamp(canvas, transform(draw.scale, draw.rotation), p.x, p.y);
    Trial(Placement(p.x, p.y, draw.scale, draw.rotation), out, SquaredError(target, out))
  }

  /** The trials of one round, in order. Without candidates every trial is skipped
      (`continue`); otherwise all of them render from the same canvas. */
  function RoundTrials(target: Image, canvas: Image, transform: Transform, pct: Percentile, rng: Rng, round: nat)
    : (ts: seq<Trial>)
    requires Compatible(target, canvas) && ValidRng(rng)
    ensures |ts| == if RoundCandidates(target, canvas, pct) == [] then 0 else TrialCount
    ensures forall k :: 0 <= k < |ts| ==> Compatible(target, ts[k].canvas)
  {
    var cands := RoundCandidates(target, canvas, pct);
    if cands == [] then []
    else
      seq(TrialCount, j requires 0 <= j < TrialCount =>
        RunTrial(target, canvas, transform, cands, rng(round, j, |cands|)))
  }

  /** Every trial of a round renders from the same current canvas, centred on one of the
      round's candidates, and carries the error of the canvas it produced. */
  lemma RoundTrialsRendered(target: Image, canvas: Image, transform: Transform, pct: Percentile, rng: Rng,
                            round: nat)
    requires Compatible(target, canvas) && ValidRng(rng)
    ensures var ts := RoundTrials(target, canvas, transform, pct, rng, round);
      forall k :: 0 <= k < |ts| ==>
        && RenderedFrom(target, canvas, transform, ts[k])
        && Coord(ts[k].placement.y, ts[k].placement.x) in RoundCandidates(target, canvas, pct)
  {
    var ts := RoundTrials(target, canvas, transform, pct, rng, round);
    var cands := RoundCandidates(target, canvas, pct);
    forall k | 0 <= k < |ts|
      ensures RenderedFrom(target, canvas, transform, ts[k])
      ensures Coord(ts[k].placement.y, ts[k].placement.x) in cands
    {
      var draw := rng(round, k, |cands|);
      assert ts[k] == RunTrial(target, canvas, transform, cands, draw);
      assert cands[draw.pick] == Coord(ts[k].placement.y, ts[k].placement.x);
    }
  }

  /** The best-trial bookkeeping (lines 80-81, 100-103): a trial replaces the best so far only
      when its score is strictly smaller, so the result is the FIRST trial of minimum score. */
  function FirstMin(ts: seq<Trial>): (b: Option<Trial>)
    ensures b.None? <==> ts == []
    ensures b.Some? ==> b.value in ts && forall k :: 0 <= k < |ts| ==> b.value.score <= ts[k].score
    decreases |ts|
  {
    if ts == [] then None
    else
      var prev := FirstMin(ts[..|ts| - 1]);
      var last := ts[|ts| - 1];
      assert forall k :: 0 <= k < |ts| - 1 ==> ts[..|ts| - 1][k] == ts[k];
      if prev.None? || last.score < prev.value.score then Some(last) else prev
  }

  /** The kept trial is the first one of minimum score: later ties do not replace it. */
  lemma {:induction false} FirstMinIsFirst(ts: seq<Trial>, j: nat)
    requires j < |ts|
    requires forall k :: 0 <= k < |ts| ==> ts[j].score <= ts[k].score
    requires forall k :: 0 <= k < j ==> ts[k].score > ts[j].score
    ensures FirstMin(ts) == Some(ts[j])
    decreases |ts|
  {
    var init := ts[..|ts| - 1];
    assert forall k :: 0 <= k < |init| ==> init[k] == ts[k];
    if j < |ts| - 1 {
      FirstMinIsFirst(init, j);
    } else if init != [] {
      assert FirstMin(init).value in init;
    }
  }

  /** What a round commits: the first best trial, or nothing when no trial ran. */
  function Commit(target: Image, canvas: Image, transform: Transform, pct: Percentile, rng: Rng, round: nat)
    : (b: Option<Trial>)
    requires Compatible(target, canvas) && ValidRng(rng)
    ensures b.Some? ==> Compatible(target, b.value.canvas)
  {
    FirstMin(RoundTrials(target, canvas, transform, pct, rng, round))
  }

  /** The committed trial is one of the round's trials, with no trial scoring lower: it was
      rendered from the current canvas and centred on a candidate of the round. */
  lemma CommitRendered(target: Image, canvas: Image, transform: Transform, pct: Percentile, rng: Rng, round: nat)
    requires Compatible(target, canvas) && ValidRng(rng)
    ensures var b, ts := Commit(target, canvas, transform, pct, rng, round), RoundTrials(target, canvas, transform, pct, rng, round);
      b.Some? ==>
        && RenderedFrom(target, canvas, transform, b.value)
        && Coord(b.value.placement.y, b.value.placement.x) in RoundCandidates(target, canvas, pct)
        && b.value in ts
        && forall k :: 0 <= k < |ts| ==> b.value.score <= ts[k].score
  {
    RoundTrialsRendered(target, canvas, transform, pct, rng, round);
  }

  /** A round commits if and only if it has a candidate; the commit is unconditional otherwise,
      with no comparison against the error of the canvas before the round. */
  lemma CommitIffCandidates(target: Image, canvas: Image, transform: Transform, pct: Percentile, rng: Rng, round: nat)
    requires Compatible(target, canvas) && ValidRng(rng)
    ensures Commit(target, canvas, transform, pct, rng, round).Some? <==> RoundCandidates(target, canvas, pct) != []
  {
  }

  /** Rounds `round` to `maxShapes - 1` of the loop, from canvas `canvas` and history `placements`. */
  function SearchFrom(target: Image, canvas: Image, placements: seq<Placement>, transform: Transform,
                      pct: Percentile, rng: Rng, round: nat, maxShapes: nat): (r: (Image, seq<Placement>))
    requires Compatible(target, canvas) && ValidRng(rng)
    ensures Compatible(target, r.0) && |placements| <= |r.1|
    decreases maxShapes - round
  {
    if round >= maxShapes then (canvas, placements)
    else
      match Commit(target, canvas, transform, pct, rng, round)
      case None => (canvas, placements)
      case Some(t) => SearchFrom(target, t.canvas, placements + [t.placement], transform, pct, rng, round + 1, maxShapes)
  }

  /** The history only grows by appending, at most one placement per remaining round. */
  lemma {:induction false} SearchBounded(target: Image, canvas: Image, placements: seq<Placement>, transform: Transform,
                                         pct: Percentile, rng: Rng, round: nat, maxShapes: nat)
    requires Compatible(target, canvas) && ValidRng(rng) && round <= maxShapes
    ensures var ps := SearchFrom(target, canvas, placements, transform, pct, rng, round, maxShapes).1;
      && |placements| <= |ps| && |ps| + round <= |placements| + maxShapes
      && ps[..|placements|] == placements
    decreases maxShapes - round
  {
    var b := Commit(target, canvas, transform, pct, rng, round);
    if round < maxShapes && b.Some? {
      var t := b.value;
      var longer := placements + [t.placement];
      var rest := SearchFrom(target, t.canvas, longer, transform, pct, rng, round + 1, maxShapes);
      assert SearchFrom(target, canvas, placements, transform, pct, rng, round, maxShapes) == rest;
      SearchBounded(target, t.canvas, longer, transform, pct, rng, round + 1, maxShapes);
      PrefixOfExtension(placements, t.placement, rest.1);
    }
  }

  /** A sequence that starts with `prefix + [x]` starts with `prefix`. */
  lemma PrefixOfExtension<T>(prefix: seq<T>, x: T, s: seq<T>)
    requires |prefix| + 1 <= |s| && s[..|prefix| + 1] == prefix + [x]
    ensures s[..|prefix|] == prefix
  {
    assert s[..|prefix|] == s[..|prefix| + 1][..|prefix|];
  }

  /** Replaying the returned history from the initial canvas gives the returned canvas; hence
      every pixel only ever darkens across the run. */
  lemma {:induction false} SearchReplays(target: Image, initial: Image, canvas: Image, placements: seq<Placement>,
                                         transform: Transform, pct: Percentile, rng: Rng, round: nat, maxShapes: nat)
    requires Compatible(target, canvas) && ValidRng(rng)
    requires IsGrid(initial) && AllInCanvas(initial, placements) && canvas == Replay(initial, transform, placements)
    ensures var (final, ps) := SearchFrom(target, canvas, placements, transform, pct, rng, round, maxShapes);
      && AllInCanvas(initial, ps)
      && final == Replay(initial, transform, ps)
      && Darkens(initial, final)
    decreases maxShapes - round
  {
    var (final, ps) := SearchFrom(target, canvas, placements, transform, pct, rng, round, maxShapes);
    if round < maxShapes && Commit(target, canvas, transform, pct, rng, round).Some? {
      CommitRendered(target, canvas, transform, pct, rng, round);
      var t := Commit(target, canvas, transform, pct, rng, round).value;
      var p := t.placement;
      ReplaySnoc(initial, transform, placements, p);
      SearchReplays(target, initial, t.canvas, placements + [p], transform, pct, rng, round + 1, maxShapes);
    } else {
      ReplayDarkens(initial, transform, placements);
    }
    ReplayDarkens(initial, transform, ps);
  }

  /** A canvas equal to the target has a difference of 0 everywhere, hence no candidate. */
  lemma EqualHasNoCandidates(target: Image, canvas: Image, pct: Percentile)
    requires Compatible(target, canvas) && ValidPercentile(pct)
    requires target == canvas
    ensures RoundCandidates(target, canvas, pct) == []
  {
    var d := Diff(target, canvas);
    forall r, c | 0 <= r < |d| && 0 <= c < |d[r]|
      ensures d[r][c] == 0
    {
      DiffCases(target, canvas, r, c);
    }
    if |d| > 0 && Width(d) > 0 {
      AllEqualNoCandidates(d, pct(d), 0);
    } else {
      CandidatesEmptyIff(d, pct(d));
    }
  }

  /** So a search started on a canvas equal to the target stops at once, keeping the history
      it was given. */
  lemma ConvergedStops(target: Image, canvas: Image, placements: seq<Placement>, transform: Transform,
                       pct: Percentile, rng: Rng, round: nat, maxShapes: nat)
    requires Compatible(target, canvas) && ValidRng(rng) && ValidPercentile(pct)
    requires target == canvas
    ensures SearchFrom(target, canvas, placements, transform, pct, rng, round, maxShapes) == (canvas, placements)
  {
    EqualHasNoCandidates(target, canvas, pct);
    assert Commit(target, canvas, transform, pct, rng, round) == None;
  }

  /** Trial j of a round with candidates is the trial rendered from the j-th draw. */
  lemma RoundTrialAt(target: Image, canvas: Image, transform: Transform, pct: Percentile, rng: Rng,
                     round: nat, j: nat)
    requires Compatible(target, canvas) && ValidRng(rng)
    requires RoundCandidates(target, canvas, pct) != [] && j < TrialCount
    ensures var cands := RoundCandidates(target, canvas, pct);
      && j < |RoundTrials(target, canvas, transform, pct, rng, round)|
      && RoundTrials(target, canvas, transform, pct, rng, round)[j]
         == RunTrial(target, canvas, transform, cands, rng(round, j, |cands|))
  {
  }

  /** One more trial replaces the best so far exactly when its score is strictly smaller. */
  lemma FirstMinStep(ts: seq<Trial>, j: nat)
    requires j < |ts|
    ensures var prev := FirstMin(ts[..j]);
      FirstMin(ts[..j + 1]) == if prev.None? || ts[j].score < prev.value.score then Some(ts[j]) else prev
  {
    assert ts[..j + 1][..j] == ts[..j];
  }

  /** The body of trial j of a round (lines 86-98): recompute the difference and the
      candidates, skip the trial when there is none (`continue`), otherwise draw a centre, a
      scale and a rotation, `place_shape` on the current canvas and score the result. */
  method TryTrial(target: Image, current: Image, transform: Transform, pct: Percentile, rng: Rng,
                  round: nat, j: nat)
    returns (trial: Option<Trial>)
    requires Compatible(target, current) && ValidRng(rng) && j < TrialCount
    ensures var ts := RoundTrials(target, current, transform, pct, rng, round);
      trial == if ts == [] then None else Some(ts[j])
  {
    var diff := Diff(target, current);
    var cands := Candidates(diff, pct(diff));
    if |cands| == 0 {
      return None;
    }
    var draw := rng(round, j, |cands|);
    var centre := cands[draw.pick];
    var stencil := transform(draw.scale, draw.rotation);
    var newCanvas := PlaceShape(current, stencil, centre.x, centre.y);
    var score := SquaredError(target, newCanvas);
    trial := Some(Trial(Placement(centre.x, centre.y, draw.scale, draw.rotation), newCanvas, score));
    RoundTrialAt(target, current, transform, pct, rng, round, j);
  }

  /** One round of `optimize_shape_placement` (lines 80-103): 100 trials on the unchanged
      current canvas, keeping a trial only when its score is strictly below the best so far. */
  method RunRound(target: Image, current: Image, transform: Transform, pct: Percentile, rng: Rng, round: nat)
    returns (best: Option<Trial>)
    requires Compatible(target, current) && ValidRng(rng)
    ensures best == Commit(target, current, transform, pct, rng, round)
  {
    best := None;
    ghost var ts := RoundTrials(target, current, transform, pct, rng, round);
    for j := 0 to TrialCount
      invariant best == FirstMin(ts[..if ts == [] then 0 else j])
    {
      var trial := TryTrial(target, current, transform, pct, rng, round, j);
      if trial.Some? {
        FirstMinStep(ts, j);
        if best.None? || trial.value.score < best.value.score {
          best := trial;
        }
      }
    }
    assert ts[..if ts == [] then 0 else TrialCount] == ts;
  }

  /** `optimize_shape_placement`: rounds until `max_shapes` or until a round commits nothing. */
  method OptimizeShapePlacement(target: Image, canvas: Image, transform: Transform, pct: Percentile, rng: Rng,
                                maxShapes: nat)
    returns (final: Image, placements: seq<Placement>)
    requires Compatible(target, canvas) && ValidRng(rng)
    ensures (final, placements) == SearchFrom(target, canvas, [], transform, pct, rng, 0, maxShapes)
    ensures |placements| <= maxShapes
    ensures AllInCanvas(canvas, placements) && final == Replay(canvas, transform, placements)
    ensures Darkens(canvas, final)
  {
    placements := [];
    var current := canvas;
    var i := 0;
    while i < maxShapes
      invariant i <= maxShapes && Compatible(target, current)
      invariant SearchFrom(target, current, placements, transform, pct, rng, i, maxShapes)
             == SearchFrom(target, canvas, [], transform, pct, rng, 0, maxShapes)
    {
      var best := RunRound(target, current, transform, pct, rng, i);
      match best
      case None =>
        assert SearchFrom(target, current, placements, transform, pct, rng, i, maxShapes) == (current, placements);
        break;
      case Some(t) =>
        assert SearchFrom(target, current, placements, transform, pct, rng, i, maxShapes)
            == SearchFrom(target, t.canvas, placements + [t.placement], transform, pct, rng, i + 1, maxShapes);
        placements := placements + [t.placement];
        current := t.canvas;
      i := i + 1;
    }
    final := current;
    SearchBounded(target, canvas, [], transform, pct, rng, 0, maxShapes);
    SearchReplays(target, canvas, canvas, [], transform, pct, rng, 0, maxShapes);
  }
}
