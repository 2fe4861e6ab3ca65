# sketch.js pixel morph, modelled in Dafny

`sketch.js` is a p5.js sketch that turns two images into fields of white
grid squares and morphs one field into the other. This project models:

- **the sampler** `processImage` (module `Sampler`). It enumerates the
  image's grid cells in steps of the pixel size and keeps those whose mean
  channel value is above the threshold. It stable-sorts them brightest
  first, snaps each into the 1280×720 canvas grid, and accepts them greedily
  up to `pixelCount`, skipping canvas cells that are already taken;
- **the easing** `easeInOutCubic` and p5's `lerp` (module `Easing`);
- **the morph state machine** (module `Morph`). The sketch's globals are the
  fields of class `Sketch`. Its methods are:
  - the set-up after the load callbacks;
  - `resetPixelDelays`;
  - the delay-spread slider;
  - one animation frame of `draw`;
  - the generate button;
  - the three sliders that regenerate both layouts, modelled as one method
    `Regenerate` with a `Setting`.

Each loop of the source is a method with loop invariants, proved equal to
a specification function:
- `CollectCandidates` equals `Candidates`;
- `AcceptCandidates` equals `Walk`;
- `ResetPixelDelays` equals `DelaySchedule`;
- `InterpolateAll` equals `InterpolateLayer`.

The properties the sketch relies on are lemmas about those functions.

Modelling choices:
- **Brightness.** It is the channel sum `r + g + b`. The test
  `(r + g + b) / 3 > threshold` is `r + g + b > 3 * threshold`, which is
  exact.
- **Canvas snap.** Over exact arithmetic, `floor(map(c, 0, extent, 0, canvasExtent) / gridSize) * gridSize`
  on non-negative integers is `(c * canvasExtent) / (extent * gridSize) * gridSize`
  in integer division. The model uses that integer form. sketch.js
  computes `map` in doubles, which can differ (see `Sampler.SnapCoordinate`
  under "## Left out").
- **Grid size.** The sampler's members require `gridSize > 0`. In sketch.js
  the loops `x += gridSize` and `y += gridSize` (sketch.js:147-148) never
  end when `pixelSize` is 0 or negative. sketch.js relies on the
  pixel-size slider's range, which is set outside sketch.js, to exclude
  such values.
- **Delay spread.** `Sketch.Valid()` and `Sketch.SetDelaySpread` require
  `delaySpread >= 0`, and `Random` requires `lo <= hi`. sketch.js:234
  stores whatever the slider gives. p5's `random` swaps reversed bounds, so
  a negative spread would give negative delays. The delayed progress could
  then exceed 1 and completion could fire early. sketch.js relies on the
  delay-spread slider's range, which is set outside sketch.js, to keep the
  spread non-negative.
- **Reals.** Progress, delays, easing and interpolation are exact `real`s.
- **Randomness.** p5's `random(lo, hi)` is `u * (hi - lo) + lo` for a unit
  draw `u` in [0, 1). The draws are passed in as a sequence `samples`.

## Model

| member | source | states |
|---|---|---|
| `Easing.EaseInOutCubic` | sketch.js:252-254 | maps 0 to 0, 1/2 to 1/2 and 1 to 1; maps [0, 1] into [0, 1]; is at most 0 at or below 0 and at least 1 at or above 1 |
| `Easing.EaseMonotone` | sketch.js:252-254 | the easing is non-decreasing on [0, 1] |
| `Easing.EaseSymmetric` | sketch.js:252-254 | the ease-out half mirrors the ease-in half: f(1 - x) = 1 - f(x) for every x |
| `Easing.Lerp` | sketch.js:87-88 | amount 0 gives the start, amount 1 gives the stop, and an amount in [0, 1] stays between start and stop in either order |
| `Sampler.Column` | sketch.js:148-154 | the bright cells of one column from a given row down, in row order; `Sampler.ColumnMembers` characterises them |
| `Sampler.ColumnMembers` | sketch.js:148-154 | a position is in the column from row y down exactly when it lies in column x, on a grid row from y to the image height, brighter than the threshold, with its own brightness |
| `Sampler.Columns` | sketch.js:147-155 | the bright cells of the columns from a given column rightwards, column after column; `Sampler.ColumnsMembers` characterises them |
| `Sampler.ColumnsMembers` | sketch.js:147-155 | a position is in the columns from column x rightwards exactly when it is a bright grid cell of the image at or right of x |
| `Sampler.Candidates` | sketch.js:147-155 | every bright cell in the order the nested loops find them; `Sampler.CandidatesExactly` says which cells these are, and `Sampler.CollectCandidates` shows the loops produce them |
| `Sampler.CandidatesExactly` | sketch.js:147-153 | a position is enumerated exactly when it is a grid cell inside the image, brighter than the threshold, recorded with its own brightness |
| `Sampler.CollectCandidates` | sketch.js:144-155 | the nested loops push exactly the enumeration `Candidates`, in x-major discovery order, and every pushed position is a bright grid cell |
| `Sampler.SortByBrightness` | sketch.js:156 | the sort of `positions`, brightest first; `Sampler.SortPermutes`, `Sampler.SortOrders` and `Sampler.SortIsStable` together say it is the stable descending sort |
| `Sampler.SortPermutes` | sketch.js:156 | the brightness sort returns a permutation of the candidates |
| `Sampler.SortOrders` | sketch.js:156 | the sorted candidates are in non-increasing brightness |
| `Sampler.SortIsStable` | sketch.js:156 | for every brightness, the candidates of that brightness keep their discovery order (JavaScript's sort is stable) |
| `Sampler.SnapCoordinate` | sketch.js:163-164 | a coordinate inside the image snaps to a non-negative multiple of the grid size inside the canvas extent |
| `Sampler.Snap` | sketch.js:163-167 | a candidate inside the image maps to a canvas cell on the grid and inside the canvas, which is also its `occupied` key |
| `Sampler.Walk` | sketch.js:159-177 | the keys the acceptance loop pushes from a resume point: at most the remaining budget (none when it is not positive), none of them already occupied, each a key at or after the resume point; `Sampler.WalkSelects`, `Sampler.AcceptDistinct`, `Sampler.AcceptCovers`, `Sampler.AcceptSkipsOnlyWhenFull` and `Sampler.AcceptFirstOccurrence` say which ones |
| `Sampler.Accept` | sketch.js:159-177 | the acceptance walk keeps at most the remaining budget of candidates, at strictly increasing indices at or after the resume point |
| `Sampler.WalkSelects` | sketch.js:159-177 | the keys the walk pushes are exactly the canvas keys at the indices `Accept` keeps |
| `Sampler.AcceptDistinct` | sketch.js:166-175 | accepted canvas keys are pairwise distinct and none was in `occupied` when the walk resumed |
| `Sampler.AcceptCovers` | sketch.js:159-177 | if the walk ends below its budget, every later candidate's key was occupied before or is accepted |
| `Sampler.AcceptSkipsOnlyWhenFull` | sketch.js:158-177 | a free key the walk does not accept lies past every accepted index, and the walk has used its whole budget: a free key is passed over only once the budget is full |
| `Sampler.AcceptFirstOccurrence` | sketch.js:159-177 | each accepted index holds the first occurrence of its canvas key from the resume point on, so of several candidates sharing a cell the earliest is kept |
| `Sampler.AcceptEmpty` | sketch.js:159-160 | from an empty `occupied` set the walk accepts nothing exactly when the budget is not positive or there are no candidates |
| `Sampler.AcceptCandidates` | sketch.js:159-177 | the acceptance loop, with its `occupied` set and early `break`, pushes exactly `Walk` over the candidates' canvas keys |
| `Sampler.SortedCandidates` | sketch.js:147-156 | every sorted candidate lies in the image and is a bright grid cell with its own brightness |
| `Sampler.Sample` | sketch.js:135-181 | the layout `processImage` returns; `Sampler.SampleIsLayout`, `Sampler.SampleFollowsBrightness`, `Sampler.SampleEmpty`, `Sampler.SampleFillsBudget`, `Sampler.SampleTakesBrightest` and `Sampler.SampleBrightestPerCell` state its properties |
| `Sampler.SampleSelects` | sketch.js:135-181 | the layout is the canvas keys selected by the accepted indices |
| `Sampler.SampleIsLayout` | sketch.js:159-175 | the layout has at most `pixelCount` points (none when it is not positive); each is on the canvas grid and inside the canvas; no two share a key |
| `Sampler.SampleFollowsBrightness` | sketch.js:151-164 | point k is the canvas cell of picked candidate k; each picked candidate is a bright grid cell of the image; the picks come in non-increasing brightness |
| `Sampler.SampleEmpty` | sketch.js:151-160 | the layout is empty exactly when `pixelCount <= 0` or no grid cell is brighter than the threshold |
| `Sampler.SampleFillsBudget` | sketch.js:159-177 | a layout shorter than the budget contains the canvas cell of every bright grid cell |
| `Sampler.SampleTakesBrightest` | sketch.js:156-177 | a bright cell whose canvas cell is missing from the layout was left out only because the layout holds `pixelCount` points, each picked from a candidate at least as bright |
| `Sampler.SampleBrightestPerCell` | sketch.js:156-177 | the point the layout holds for a canvas cell was picked from a candidate at least as bright as every bright cell that snaps to that cell |
| `Sampler.ProcessImage` | sketch.js:135-181 | `processImage` returns `Sample`: at most `pixelCount` pairwise distinct points on the canvas grid |
| `Morph.ToPositions` | sketch.js:205 | the copy has the layout's length and each entry is the layout point at that index |
| `Morph.Random` | sketch.js:51 | a draw lies in [lo, hi] |
| `Morph.DelaySchedule` | sketch.js:47-52 | the schedule has `pixelCount` delays (none when it is not positive), each in [0, delaySpread / 100], all zero when the spread is 0 |
| `Morph.ScheduleCoversLayout` | sketch.js:47-52 | a fresh schedule has a delay for every point of a layout sampled with the same `pixelCount` |
| `Morph.Advance` | sketch.js:70 | one frame's progress never exceeds 1, never falls below a progress at most 1, never exceeds the old progress plus 0.008, and is either 1 or the old progress plus 0.008 |
| `Morph.DelayedProgress` | sketch.js:83 | the delayed progress is non-negative and at least progress minus delay, and is one of the two |
| `Morph.Interpolate` | sketch.js:80-88 | where pixel i is drawn in a frame; `Morph.InterpolateAtStart`, `Morph.InterpolateAtEnd` and `Morph.InterpolateBetween` state where that is |
| `Morph.DelayedProgressBounds` | sketch.js:83-85 | with progress in [0, 1] and a non-negative delay, the delayed progress lies in [0, progress] and its eased value lies in [0, 1] |
| `Morph.InterpolateAtStart` | sketch.js:83-88 | until a pixel's delay has elapsed, it sits on its source position |
| `Morph.InterpolateAtEnd` | sketch.js:83-88 | with delay 0 and progress 1, a pixel lands exactly on its target |
| `Morph.InterpolateBetween` | sketch.js:83-88 | each coordinate of a moving pixel stays between its source and target coordinates |
| `Morph.InterpolateLayer` | sketch.js:79-89 | a frame has one position per current index, each the interpolation of that index's source, target and delay |
| `Morph.LayerReachesTarget` | sketch.js:79-89 | at progress 1 with a zero schedule, the frame is the target layout |
| `Morph.LayerStartsAtSource` | sketch.js:79-89 | at progress 0 with non-negative delays, the frame is the source layout |
| `Morph.InterpolateAll` | sketch.js:79-89 | the loop rewrites `currentPixels` in place to `InterpolateLayer` at the new progress |
| `Morph.AllComplete` | sketch.js:92-94 | the completion test: every current index has progress at least 1 plus its delay; `Morph.NeverCompletesWithPositiveDelay` and `Morph.CompletesAfter125Frames` say when it holds |
| `Morph.NeverCompletesWithPositiveDelay` | sketch.js:70-94 | with progress at most 1, one positive delay on a current index makes the completion test false |
| `Morph.AdvanceN` | sketch.js:70 | the progress after k frames, each applying the clamped step of line 70; `Morph.AdvanceNBounds` and `Morph.AdvanceNFromZero` state its values |
| `Morph.AdvanceNBounds` | sketch.js:70 | over any number of frames the progress stays in [0, 1] and never decreases |
| `Morph.AdvanceNFromZero` | sketch.js:70 | from 0, k frames give progress min(0.008 k, 1) |
| `Morph.StuckWithPositiveDelay` | sketch.js:70-96 | with a positive delay on a current index, no number of frames completes the morph |
| `Morph.CompletesAfter125Frames` | sketch.js:70-96 | with a zero schedule and a non-empty layer, the morph completes after k frames exactly when k >= 125 |
| `Morph.CopyLayer` | sketch.js:205 | a fresh array holding the layout's points as positions |
| `Morph.Resample` | sketch.js:203-204 | a loaded image is resampled with the current settings; a missing one keeps its old layout |
| `Morph.Sketch.constructor` | sketch.js:1-45 | the set-up: initial slider values, not animating, progress 0, `isFirstImage`; each loaded image sampled; source is layout 1, target is layout 2, `currentPixels` a copy of layout 1; a fresh delay schedule; `Valid()` holds |
| `Morph.Sketch.ResetPixelDelays` | sketch.js:47-52 | the loop replaces `pixelDelays` by `DelaySchedule` at the current count and spread, and changes nothing else |
| `Morph.Sketch.SetDelaySpread` | sketch.js:233-237 | stores the spread, draws a new schedule with it, changes nothing else, and keeps `Valid()` |
| `Morph.Sketch.Tick` | sketch.js:66-104 | keeps `Valid()`, the schedule, the layouts and the settings. If either image is missing or not animating, nothing changes. With an empty array, only the clock advances. Otherwise every current pixel is re-interpolated at the advanced progress, and once every pixel has completed the layouts swap, `isFirstImage` toggles, progress returns to 0 and the animation stops. While animating, progress never decreases |
| `Morph.Sketch.Generate` | sketch.js:240-249 | with both images loaded and no animation running, it starts a morph at progress 0 with a fresh schedule, from the layout `isFirstImage` designates to the other one; otherwise nothing changes; keeps `Valid()` |
| `Morph.Sketch.Regenerate` | sketch.js:199-230 | stores the changed setting; resamples each loaded image with the new settings; resets `currentPixels` to a fresh copy of layout 1, source to layout 1 and target to layout 2; leaves the schedule and the animation flags alone; keeps `Valid()` |
| `Morph.Sketch.RegenerateLayouts` | sketch.js:203-207 | the shared body: both layouts resampled, `currentPixels` a fresh copy of layout 1, source layout 1, target layout 2, nothing else changed |
| `Morph.StartedTickDefined` | sketch.js:79-83 | during a morph whose layout 1 is the sample of image 1 and whose schedule has `pixelCount` delays (as after generate), the tick is defined exactly when layout 1 is no longer than layout 2 |
| `Morph.TickDefinedExactly` | sketch.js:73-83 | during a morph with no empty array, every index the tick reads exists exactly when layout 2 and the schedule are at least as long as layout 1 |

## Left out

- Image loading. `loadImage`, its asynchronous callbacks, the
  `imagesLoaded` counter, `img.loadPixels` and the loading screen
  (sketch.js:24-40, 58-64, 138) are asset I/O. The constructor models the
  state once the callbacks of the images that loaded have run. A missing
  image is `None`. A callback arriving later is not modelled.
- Drawing and the debug panel (sketch.js:56, 106-131), including the NaN
  filter. This is rendering only.
- The DOM. `select`, `.html`, the event wiring and `parseInt(this.value())`
  are left out. A slider's new value is a parameter. A slider value that
  `parseInt` turns into NaN is not modelled.
- `console.log` calls are logging only.
- `handleImage` (sketch.js:183-195) is not wired to any control.
- Floating point. `animationProgress`, the delays, the easing and `lerp`
  are exact reals, so the model does not capture rounding. The frame count
  of `Morph.CompletesAfter125Frames` also holds in doubles: frames 1 to 124
  stay below 1 (frame 124 is 0.9920000000000008). At frame 125 the raw sum
  is 1.0000000000000007, and the `min` of sketch.js:70 clamps it to exactly
  1.
- `Sampler.SnapCoordinate`: computes the snap in exact integer arithmetic.
  sketch.js:163-164 computes p5's `map` in doubles, as
  `(c - 0) / (extent - 0) * (canvasExtent - 0) + 0`. When the exact value
  divided by the grid size is an integer, rounding can leave the double
  just below it, so `floor` moves the cell one grid step down. For
  example, y = 690 in a 1080-tall image at grid size 10 maps to
  459.99999999999994 and snaps to 450, while the model gives 460. The
  `occupied` check can then drop that point. The model does not capture
  this.
- p5 `random` is a parameter. Its draws come in as the `samples` sequence.
- `Sampler.SortByBrightness`: the source sorts `positions` in place with
  the library sort. The model uses a stable insertion sort written as a
  function on sequences. It has no loop because the source has none.
- `Morph.Sketch.Tick`: requires `TickDefined()`, meaning that during a morph
  with no empty array, the source layout, the target layout and the delay
  schedule are each at least as long as `currentPixels`. The source has no
  such guard. A shorter layout makes `startPos.x` or `endPos.x`
  (sketch.js:87) throw. A shorter
  schedule makes the delay `undefined`, so the pixel's coordinates become
  NaN. `Morph.TickDefinedExactly` shows this fails whenever layout 2 is
  shorter than layout 1. It also fails when the pixel-count slider has
  raised the count. That slider does not redraw the schedule, which
  `Morph.Sketch.Regenerate` states as `pixelDelays == old(pixelDelays)`.
- `img.pixels` is indexed with a single pixel density. A high-density
  backing store is outside the model.

## Behaviours of the code worth knowing

- Every regeneration (sketch.js:205-207) resets `currentPixels` to a copy
  of layout 1, makes layout 1 the source and layout 2 the target. It does
  this even when layout 2 is on screen (`isFirstImage` false).
  `Morph.Sketch.Regenerate` states this.
- `currentPixels` is always a copy of layout 1 (sketch.js:28, 205), and the
  tick moves exactly `currentPixels.length` pixels (sketch.js:79). When
  layout 2 has more points, its extra points are never drawn.
- Canvas cells are found by enumerating in image space and mapping forward
  (sketch.js:147-148, 163-164). When the image is wider or taller than the
  canvas, several image cells can snap to one canvas cell. The `occupied`
  check (sketch.js:167-171) then drops the later ones.
- Progress is clamped to 1 (sketch.js:70), but completion tests
  `progress >= 1 + delay` (sketch.js:93). So with any positive delay the
  morph never completes. `Morph.StuckWithPositiveDelay` states this, and
  the model keeps the behaviour.
