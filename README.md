# Image recreation via shapes: a Dafny model of the placement search

The program rebuilds a grayscale target image by stamping black stars onto a white canvas.
Each round runs 100 random trials on the current canvas and commits the best one. A trial
picks a centre among the pixels that differ most from the target, draws a scale and a rotation,
and calls `place_shape`. The run ends after `max_shapes` rounds, or sooner when a round has
no candidate pixel. The recorded placements are then replayed from the initial canvas to animate
the result.

This project models three parts of `main.py` and proves properties of them:

- **The compositor** (`place_shape`, module `Compositor`). The stencil is the resized and
  rotated star as its boolean mask. It is centred on the chosen point, clipped against the canvas,
  and every covered foreground pixel of a copy of the canvas is set to 0. `PlaceShape` holds the
  numpy array as an `array2<Byte>` and masks the clipped window in place with a `forall`
  statement. It is proved equal to the value-level `Stamp`, and `StampPixel` proves that clipping
  neither loses nor adds a pixel of the unclipped footprint.
- **The search** (`optimize_shape_placement`, module `Search`):
  - The difference `target - canvas` is an uint8 array, so it wraps modulo 256.
  - The candidates are `np.where(diff > threshold)`: exactly the pixels above the threshold, in
    row-major order.
  - Each trial stamps the same current canvas and is scored.
  - The first trial with the strictly smallest score is kept and committed unconditionally.
  - The round loop stops when no trial ran.

  `SearchFrom` is the recursive reference definition of the run. The method
  `OptimizeShapePlacement` and its loops (`RunRound` for the 100 trials, `TryTrial` for one) are
  proved against it.
- **The replay** (module `History`). `Replay` folds the stamp over the recorded placements.
  `SearchReplays` proves that replaying what the search returns reproduces the canvas it returns.

Module `Metric` provides the score: the integer sum of squared pixel differences, with a lemma
that dividing by the pixel count (the mean squared error) keeps every comparison.
Module `Scenarios` holds a concrete two-pixel run. It shows that a committed round can make
the error worse.

Images are modelled as values (`seq<seq<Byte>>`). PIL images are mutable objects, but this
program never changes one after creating it. `place_shape` masks a fresh numpy array taken from
`canvas.copy()` and returns a new image built by `Image.fromarray` (main.py:58-59, 72), and the
search and the replay only ever rebind `current_canvas` to such new images. In the model the
input canvas is unchanged because a value cannot change, and the array that `PlaceShape` masks
is freshly allocated.

Two behaviours of the code may be unexpected:

- One might expect `target - canvas` to be a signed difference. The code subtracts two uint8
  arrays instead, so a canvas pixel brighter than the target gives `256 - (canvas - target)`, not
  a negative value (`Search.DiffCases`). A white canvas pixel over a slightly darker target
  pixel therefore scores high (201 for 255 over 200), and so does a pixel darkened too far (200
  for 0 under 200).
- The empty-candidate check is not made once per round. The code recomputes the candidates in
  every trial and skips the trial (`continue`), and the loop breaks after the round when
  no trial ran. The canvas does not change within a round, so a round commits exactly when it
  has a candidate (`Search.CommitIffCandidates`). The model keeps the code's structure.

## Model

| member | source | states |
|---|---|---|
| Compositor.ClipAligned | main.py:50-68 | For any centre, `Clip` (the arithmetic of lines 50-52 and 62-68) yields a canvas window starting inside the canvas and ending no later than its edge, and a stencil window at a non-negative offset. The two windows have equal extents and are aligned on the unclipped top-left corner `(x - w//2, y - h//2)`. |
| Compositor.ClipWellFormed | main.py:50-68 | With the centre on the canvas and a stencil of at least 1x1, both clipped windows are non-empty and in bounds: `0 <= x1 < x2 <= W`, `0 <= y1 < y2 <= H`, the stencil window inside `[0,h) x [0,w)`. They have the same extents and are aligned on the top-left corner `(x - w//2, y - h//2)`. |
| Compositor.Stamp | main.py:58-72 | The stamped raster keeps the canvas's dimensions and stays rectangular. |
| Compositor.StampAt | main.py:65-70 | Inside the canvas window, the stencil-window index is in range. The stamped pixel is 0 exactly when the boolean index `mask[shape_y1:shape_y2, shape_x1:shape_x2]` selects it, and is the canvas pixel otherwise. |
| Compositor.StampPixel | main.py:50-70 | Against an independent, unclipped definition: a pixel becomes 0 exactly when the stencil centred at `(x - w//2, y - h//2)` has a foreground cell over it. Otherwise it keeps its value. Pixels outside the clipped window are unchanged. |
| Compositor.StampDarkens | main.py:70 | Every output pixel equals the input pixel or is 0. |
| Compositor.DarkensTransitive | main.py:70 | "Only darkens" composes across successive stamps. |
| Compositor.DarkensMonotone | main.py:70 | Darkening never lowers the number of 0-pixels and never raises the total brightness. |
| Compositor.PlaceShape | main.py:44-72 | Copying the canvas into a new array, masking the clipped window in place and converting back gives exactly `Stamp` of the input canvas. |
| Compositor.Snapshot | main.py:72 | `Image.fromarray` gives an image with the array's dimensions and its pixels. |
| Metric.RowSquaredError | main.py:36-37 | A row's sum of squared differences is 0 exactly when the rows are equal. |
| Metric.SquaredError | main.py:36-37 | The score of two equal-shaped rasters is 0 exactly when they are equal. |
| Metric.MeanSquaredError | main.py:36-37 | `compute_mse` on equal-shaped rasters is never negative, and is 0 exactly when they are equal. |
| Metric.MeanSquaredErrorOrder | main.py:98-100 | Comparing mean squared errors (`score < best_score`) agrees with comparing integer sums of squares. |
| Search.Diff | main.py:86 | The difference raster has the canvas's dimensions. |
| Search.DiffRestoresTarget | main.py:86 | Adding the canvas back to the difference modulo 256 gives the target, so the difference is uint8 subtraction. |
| Search.DiffCases | main.py:86 | The difference is `target - canvas` where the canvas is not brighter, and `256 - (canvas - target)` where it is. |
| Search.RowCandidates | main.py:87 | Every column reported for a row is in range and above the threshold. |
| Search.CandidatesFrom | main.py:87 | Every reported pixel from a given row on is in bounds and above the threshold. |
| Search.Candidates | main.py:87 | Every candidate is an in-bounds pixel whose difference is strictly above the threshold. |
| Search.RowCandidatesComplete | main.py:87 | Every column of the row above the threshold is reported. |
| Search.RowCandidatesOrdered | main.py:87 | Columns are reported left to right, each once. |
| Search.CandidatesFromComplete | main.py:87 | Every pixel above the threshold, from a given row on, is reported. |
| Search.CandidatesFromOrdered | main.py:87 | Pixels are reported in strictly increasing row-major order. |
| Search.CandidatesExact | main.py:87 | `np.where(diff > t)` exactly: only and all pixels above the threshold, each once, row-major. |
| Search.CandidatesEmptyIff | main.py:87-89 | There is no candidate if and only if no pixel of the difference lies above the threshold. |
| Search.AllEqualNoCandidates | main.py:87 | If every difference has the same value, a threshold bracketed by the difference's minimum and maximum (as a percentile is) leaves no candidate. |
| Search.RoundCandidates | main.py:86-87 | Every candidate of a round is a pixel of the current canvas. |
| Search.RunTrial | main.py:90-98 | A trial centred on the picked candidate produces a raster of the target's dimensions. |
| Search.RoundTrials | main.py:84-98 | A round has 100 trials when it has a candidate and none otherwise. Every trial's canvas has the target's dimensions. |
| Search.RoundTrialsRendered | main.py:84-98 | Every trial of a round is `place_shape` on the same current canvas, centred on a candidate of that canvas, and scored against the target. |
| Search.FirstMin | main.py:80-103 | The best-so-far bookkeeping is empty exactly when no trial ran. Otherwise it holds one of the trials, and no trial scores lower. |
| Search.FirstMinIsFirst | main.py:100-103 | Among equal minimum scores the first trial is kept: a later tie never replaces it. |
| Search.Commit | main.py:105-108 | A committed canvas has the target's dimensions, so the next round can run on it. |
| Search.CommitRendered | main.py:96-107 | The committed trial is one of the round's trials and none scores lower. It was rendered from the pre-round canvas, centred on a candidate. |
| Search.CommitIffCandidates | main.py:88-110 | A round commits if and only if its candidate set is non-empty. No other condition, such as an improvement over the pre-round canvas, is checked. |
| Search.SearchFrom | main.py:79-110 | The reference run of the round loop from a given round, canvas and history. Its final canvas has the target's dimensions, and its history is at least as long as the one it started from. `SearchBounded`, `SearchReplays` and `ConvergedStops` state the rest. |
| Search.SearchBounded | main.py:79-110 | The history only grows by appending, by at most one placement per remaining round, so it never exceeds `max_shapes`. |
| Search.SearchReplays | main.py:105-112 | Every returned placement has its centre on the canvas. Replaying the returned history from the initial canvas gives the returned canvas. Every pixel of it is the initial pixel or 0. |
| Search.EqualHasNoCandidates | main.py:86-89 | A canvas equal to the target has an all-zero difference, hence no candidate under a bracketed threshold. |
| Search.ConvergedStops | main.py:86-110 | A search started on a canvas equal to the target stops at once and keeps the history it was given. |
| Search.TryTrial | main.py:86-98 | One trial body: it returns nothing when there is no candidate (`continue`), otherwise the trial rendered from this trial's draw. |
| Search.RunRound | main.py:80-103 | The 100-trial loop with its strict `score < best_score` update yields exactly the round's commit: the first trial of minimum score, or nothing. |
| Search.OptimizeShapePlacement | main.py:74-112 | The loop returns the reference run. It appends at most `max_shapes` placements, each centred on the canvas. Replaying them from the initial canvas gives the returned canvas, which was only ever darkened. |
| History.Replay | main.py:127-130 | The replayed canvas keeps the initial canvas's dimensions. |
| History.ReplayDarkens | main.py:127-130 | Relative to the initial canvas: every replayed pixel is the initial pixel or 0, the 0-pixel count is no lower and the brightness no higher than the initial canvas's. |
| History.ReplayStepDarkens | main.py:127-130 | Round over round: replaying one more placement keeps every pixel of the previous frame or sets it to 0, so from one commit to the next the 0-pixel count never falls and the brightness never rises. |
| History.ReplayPlacements | main.py:127-132 | The replay loop's final canvas is the fold of `place_shape` over the history. The k-th frame is the canvas after the first k+1 placements. |
| Scenarios.LastPixelIsPercentile | main.py:87 | The threshold used in the scenario, the last pixel's value, is bracketed like a percentile. |
| Scenarios.ExampleDiff | main.py:86 | In the scenario, the uint8 difference of target [[200, 255]] and canvas [[255, 255]] is [[201, 0]]. |
| Scenarios.ExampleCandidates | main.py:87 | The only candidate of the scenario is the left pixel. |
| Scenarios.ExampleStamp | main.py:70 | A single-pixel stencil on the left pixel darkens only that pixel. |
| Scenarios.ExampleScores | main.py:98 | The scenario's scores: 3025 before the round and 40000 after the stamp. |
| Scenarios.ExampleCommit | main.py:84-107 | Round 0 of the scenario commits the trial that scores 40000. |
| Scenarios.ExampleSearch | main.py:79-110 | A one-round search of the scenario returns the darkened canvas and one placement. |
| Scenarios.CommitMayRegress | main.py:100-110 | With a valid random source and a valid threshold, a round commits a placement whose score (40000) is worse than the canvas it started from (3025). |

## Left out

- Loading the target and creating the blank canvas through PIL (main.py:10-15) is file I/O. The
  model takes the target and the initial canvas as parameters.
- The star template `create_star` (main.py:17-34) uses PIL's polygon rasteriser with float
  vertices. The LANCZOS resize with `int(size*scale)` and `rotate(..., expand=True)` (main.py:45-46)
  are floating-point resampling. All of it is the `Transform` parameter: a deterministic function
  of scale and rotation to a boolean stencil of at least one pixel, already thresholded as
  `shape_array > 0` (main.py:55).
- The skimage `mean_squared_error` internals (main.py:36-37) are float library code. They are
  replaced by the integer sum of squares. `Metric.MeanSquaredErrorOrder` shows that the ranking
  of trials is the same.
- `compute_ssim` (main.py:39-41) is never called by the search.
- The linear interpolation of `np.percentile(diff, 95)` (main.py:87) is an oracle `Percentile`.
  Lemmas that need it assume that its value lies between the difference's minimum and maximum
  (`ValidPercentile`).
- `random.randint` and `random.uniform` (main.py:90, 93-94) are an oracle `Rng`, indexed by round,
  trial and candidate count. It is required only to pick a valid candidate index. Scale and
  rotation pass through to the `Transform` unchanged.
- The tqdm progress bar, the matplotlib animation, the GIF save and the display
  (main.py:6-7, 124-142) are UI and output plumbing. `History.ReplayPlacements` returns the
  sequence of frames instead of drawing them.
- Compositor.PlaceShape and Compositor.ClipWellFormed require the centre to be a pixel of the
  canvas, which is stronger than the code needs. With the top-left corner `x = cx - w//2`, the
  clipping at lines 62-68 is correct whenever `-w <= x <= W` (and likewise `-h <= y <= H`).
  Beyond those bounds a slice end goes negative, and Python counts a negative end from the end of
  the array, so the mask no longer matches the window. For `x > W`, line 67 gives
  `shape_x2 = W - x < 0`. For `x + w < 0`, line 63 gives `x2 = x + w < 0`. The search never
  reaches either case, since its centres are candidate pixels and every stencil has at least one
  row and one column.
- Search.OptimizeShapePlacement is modelled with value images. Its canvas does not alias other
  data, so `current_canvas` and `current_canvas_array` (main.py:76-77, 107-108) are one value.
