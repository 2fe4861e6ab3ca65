/** The morph state machine of sketch.js: the global animation state, the
    per-frame tick of `draw`, the delay schedule, the generate button and the
    parameter sliders that regenerate both layouts. Progress, delays and the
    interpolated positions are exact `real`s. */
module Morph {
  import opened Easing
  import opened Sampler

  datatype Option<T> = None | Some(value: T)

  /** Progress added by one animation frame. */
  const Step: real := 0.008

  /** Initial slider values. */
  const DefaultPixelSize: int := 20
  const DefaultPixelCount: int := 50
  const DefaultThreshold: int := 128
  const DefaultDelaySpread: int := 0

  /** A pixel of `currentPixels`: a position in canvas space, no longer on the grid while it moves. */
  datatype Position = Position(x: real, y: real)

  function ToPosition(p: GridPoint): Position
  {
    Position(p.x as real, p.y as real)
  }

  /** The copy `layer.map(p => ({x: p.x, y: p.y}))`. */
  function ToPositions(layer: seq<GridPoint>): (r: seq<Position>)
    ensures |r| == |layer|
    ensures forall k :: 0 <= k < |r| ==> r[k] == ToPosition(layer[k])
  {
    seq(|layer|, k requires 0 <= k < |layer| => ToPosition(layer[k]))
  }

  /* ---------------------------------------------------------------- */
  /* Random delays                                                     */
  /* ---------------------------------------------------------------- */

  /** A stream of draws from the unit interval, long enough for `count` calls of `random`. */
  predicate UnitSamples(samples: seq<real>, count: int)
  {
    |samples| >= count && forall k :: 0 <= k < |samples| ==> 0.0 <= samples[k] < 1.0
  }

  /** p5's `random(lo, hi)` given the unit draw `u` it would make: `u * (hi - lo) + lo`. */
  function Random(u: real, lo: real, hi: real): (r: real)
    requires 0.0 <= u < 1.0
    requires lo <= hi
    ensures lo <= r <= hi
  {
    MulSign(u, hi - lo);
    MulSign(1.0 - u, hi - lo);
    u * (hi - lo) + lo
  }

  /** The largest delay one slider setting allows: `delaySpread / 100`. */
  function MaxDelay(delaySpread: int): real
  {
    delaySpread as real / 100.0
  }

  /** The schedule `resetPixelDelays` leaves behind: one delay per index below `pixelCount`. */
  function DelaySchedule(samples: seq<real>, pixelCount: int, delaySpread: int): (r: seq<real>)
    requires UnitSamples(samples, pixelCount)
    requires delaySpread >= 0
    ensures |r| == (if pixelCount < 0 then 0 else pixelCount)
    ensures forall k :: 0 <= k < |r| ==> 0.0 <= r[k] <= MaxDelay(delaySpread)
    ensures delaySpread == 0 ==> forall k :: 0 <= k < |r| ==> r[k] == 0.0
  {
    var n := if pixelCount < 0 then 0 else pixelCount;
    seq(n, k requires 0 <= k < n => Random(samples[k], 0.0, MaxDelay(delaySpread)))
  }

  /* ---------------------------------------------------------------- */
  /* One frame of progress                                             */
  /* ---------------------------------------------------------------- */

  /** `min(animationProgress + 0.008, 1)`. */
  function Advance(progress: real): (r: real)
    ensures r <= 1.0 && r <= progress + Step
    ensures progress <= 1.0 ==> progress <= r
    ensures r == 1.0 || r == progress + Step
  {
    if progress + Step < 1.0 then progress + Step else 1.0
  }

  /** The progress after `k` frames. */
  function AdvanceN(progress: real, k: nat): real
  {
    if k == 0 then progress else Advance(AdvanceN(progress, k - 1))
  }

  /** `max(0, animationProgress - pixelDelays[i])`: a pixel starts moving once its delay has elapsed. */
  function DelayedProgress(progress: real, delay: real): (r: real)
    ensures r >= 0.0 && r >= progress - delay
    ensures r == 0.0 || r == progress - delay
  {
    if progress - delay < 0.0 then 0.0 else progress - delay
  }

  /** Where pixel `i` is drawn: both coordinates lerped by the eased, delayed progress. */
  function Interpolate(source: GridPoint, target: GridPoint, delay: real, progress: real): Position
  {
    var eased := EaseInOutCubic(DelayedProgress(progress, delay));
    Position(Lerp(source.x as real, target.x as real, eased), Lerp(source.y as real, target.y as real, eased))
  }

  /** The first `n` pixels of a frame. */
  function InterpolateLayer(source: seq<GridPoint>, target: seq<GridPoint>, delays: seq<real>, progress: real, n: nat): (r: seq<Position>)
    requires n <= |source| && n <= |target| && n <= |delays|
    ensures |r| == n
    ensures forall i :: 0 <= i < n ==> r[i] == Interpolate(source[i], target[i], delays[i], progress)
  {
    seq(n, i requires 0 <= i < n => Interpolate(source[i], target[i], delays[i], progress))
  }

  /** `currentPixels.every((pixel, i) => animationProgress >= 1 + pixelDelays[i])`. */
  predicate AllComplete(progress: real, delays: seq<real>, n: nat)
    requires n <= |delays|
  {
    forall i :: 0 <= i < n ==> progress >= 1.0 + delays[i]
  }

  /** `x` lies between `a` and `b`, in either order. */
  predicate Between(a: real, x: real, b: real)
  {
    (a <= x <= b) || (b <= x <= a)
  }

  /* ---------------------------------------------------------------- */
  /* Properties of a frame                                             */
  /* ---------------------------------------------------------------- */

  /** While the progress is a fraction and the delay is non-negative, the eased value is taken inside [0, 1]. */
  lemma DelayedProgressBounds(progress: real, delay: real)
    requires 0.0 <= progress <= 1.0
    requires delay >= 0.0
    ensures 0.0 <= DelayedProgress(progress, delay) <= progress
    ensures 0.0 <= EaseInOutCubic(DelayedProgress(progress, delay)) <= 1.0
  {
  }

  /** Until its delay has elapsed a pixel sits on its source position. */
  lemma InterpolateAtStart(source: GridPoint, target: GridPoint, delay: real, progress: real)
    requires progress <= delay
    ensures Interpolate(source, target, delay, progress) == ToPosition(source)
  {
    assert DelayedProgress(progress, delay) == 0.0;
  }

  /** With no delay and full progress a pixel lands exactly on its target. */
  lemma InterpolateAtEnd(source: GridPoint, target: GridPoint, progress: real)
    requires progress == 1.0
    ensures Interpolate(source, target, 0.0, progress) == ToPosition(target)
  {
    assert DelayedProgress(progress, 0.0) == 1.0;
  }

  /** In between, each coordinate stays between its source and target coordinate. */
  lemma InterpolateBetween(source: GridPoint, target: GridPoint, delay: real, progress: real)
    requires 0.0 <= progress <= 1.0
    requires delay >= 0.0
    ensures Between(source.x as real, Interpolate(source, target, delay, progress).x, target.x as real)
    ensures Between(source.y as real, Interpolate(source, target, delay, progress).y, target.y as real)
  {
    DelayedProgressBounds(progress, delay);
  }

  /** A frame at full progress with a zero schedule draws the target layout itself. */
  lemma LayerReachesTarget(source: seq<GridPoint>, target: seq<GridPoint>, delays: seq<real>, n: nat)
    requires n <= |source| && n <= |target| && n <= |delays|
    requires forall i :: 0 <= i < n ==> delays[i] == 0.0
    ensures InterpolateLayer(source, target, delays, 1.0, n) == ToPositions(target[..n])
  {
    forall i | 0 <= i < n
      ensures InterpolateLayer(source, target, delays, 1.0, n)[i] == ToPositions(target[..n])[i]
    {
      InterpolateAtEnd(source[i], target[i], 1.0);
    }
  }

  /** A frame at zero progress draws the source layout itself, whatever the (non-negative) delays. */
  lemma LayerStartsAtSource(source: seq<GridPoint>, target: seq<GridPoint>, delays: seq<real>, n: nat)
    requires n <= |source| && n <= |target| && n <= |delays|
    requires forall i :: 0 <= i < n ==> delays[i] >= 0.0
    ensures InterpolateLayer(source, target, delays, 0.0, n) == ToPositions(source[..n])
  {
    forall i | 0 <= i < n
      ensures InterpolateLayer(source, target, delays, 0.0, n)[i] == ToPositions(source[..n])[i]
    {
      InterpolateAtStart(source[i], target[i], delays[i], 0.0);
    }
  }

  /* ---------------------------------------------------------------- */
  /* Completion                                                        */
  /* ---------------------------------------------------------------- */

  /** The progress is clamped to 1, so a single positive delay blocks completion. */
  lemma NeverCompletesWithPositiveDelay(progress: real, delays: seq<real>, n: nat, i: nat)
    requires n <= |delays|
    requires progress <= 1.0
    requires i < n && delays[i] > 0.0
    ensures !AllComplete(progress, delays, n)
  {
    assert progress < 1.0 + delays[i];
  }

  /** The clock never leaves [0, 1] and never runs backwards. */
  lemma {:induction false} AdvanceNBounds(progress: real, k: nat)
    requires 0.0 <= progress <= 1.0
    ensures progress <= AdvanceN(progress, k) <= 1.0
  {
    if k > 0 {
      AdvanceNBounds(progress, k - 1);
    }
  }

  /** From a fresh start, `k` frames give progress `min(k * 0.008, 1)`. */
  lemma {:induction false} AdvanceNFromZero(k: nat)
    ensures AdvanceN(0.0, k) == if k as real * Step < 1.0 then k as real * Step else 1.0
  {
    if k > 0 {
      AdvanceNFromZero(k - 1);
    }
  }

  /** With a positive delay on a current index, no number of frames completes the morph. */
  lemma StuckWithPositiveDelay(progress: real, delays: seq<real>, n: nat, i: nat, k: nat)
    requires n <= |delays|
    requires 0.0 <= progress <= 1.0
    requires i < n && delays[i] > 0.0
    ensures !AllComplete(AdvanceN(progress, k), delays, n)
  {
    AdvanceNBounds(progress, k);
    NeverCompletesWithPositiveDelay(AdvanceN(progress, k), delays, n, i);
  }

  /** With a zero schedule the morph completes on frame 125 and not before. */
  lemma CompletesAfter125Frames(delays: seq<real>, n: nat, k: nat)
    requires n <= |delays|
    requires 0 < n
    requires forall i :: 0 <= i < n ==> delays[i] == 0.0
    ensures AllComplete(AdvanceN(0.0, k), delays, n) <==> k >= 125
  {
    AdvanceNFromZero(k);
    if k < 125 {
      assert k as real * Step < 1.0;
      assert AdvanceN(0.0, k) < 1.0 + delays[0];
    } else {
      assert k as real * Step >= 1.0;
    }
  }

  /** A fresh schedule has a delay for every point of a layout sampled with the same budget. */
  lemma ScheduleCoversLayout(samples: seq<real>, delaySpread: int, img: Image, pixelSize: int, pixelCount: int, threshold: int)
    requires UnitSamples(samples, pixelCount) && delaySpread >= 0
    requires pixelSize > 0
    ensures |Sample(img, pixelSize, pixelCount, threshold)| <= |DelaySchedule(samples, pixelCount, delaySpread)|
  {
    SampleIsLayout(img, pixelSize, pixelCount, threshold);
  }

  /* ---------------------------------------------------------------- */
  /* Slider settings                                                   */
  /* ---------------------------------------------------------------- */

  /** The three sliders whose change regenerates both layouts. */
  datatype Setting = PixelSize(size: int) | PixelCount(count: int) | Threshold(level: int)

  /** A fresh array holding a copy of `layer`. */
  method CopyLayer(layer: seq<GridPoint>) returns (a: array<Position>)
    ensures fresh(a)
    ensures a[..] == ToPositions(layer)
  {
    a := new Position[|layer|](k requires 0 <= k < |layer| => ToPosition(layer[k]));
  }

  /** The loop of the tick that moves every current pixel. */
  method InterpolateAll(current: array<Position>, source: seq<GridPoint>, target: seq<GridPoint>, delays: seq<real>, progress: real)
    requires current.Length <= |source| && current.Length <= |target| && current.Length <= |delays|
    modifies current
    ensures current[..] == InterpolateLayer(source, target, delays, progress, current.Length)
  {
    for i := 0 to current.Length
      invariant forall k :: 0 <= k < i ==> current[k] == Interpolate(source[k], target[k], delays[k], progress)
    {
      var startPos := source[i];
      var endPos := target[i];
      var delayedProgress := DelayedProgress(progress, delays[i]);
      var eased := EaseInOutCubic(delayedProgress);
      current[i] := Position(Lerp(startPos.x as real, endPos.x as real, eased), Lerp(startPos.y as real, endPos.y as real, eased));
    }
  }

  /** `if (img) pixels = processImage(img)`: resample a loaded image, keep the layout of a missing one. */
  method Resample(img: Option<Image>, layer: seq<GridPoint>, pixelSize: int, pixelCount: int, threshold: int) returns (r: seq<GridPoint>)
    requires pixelSize > 0
    ensures r == if img.Some? then Sample(img.value, pixelSize, pixelCount, threshold) else layer
  {
    r := layer;
    if img.Some? {
      r := ProcessImage(img.value, pixelSize, pixelCount, threshold);
    }
  }

  /** The layout of an image is its sample at the given settings, and empty while the image is missing. */
  predicate Sampled(img: Option<Image>, layer: seq<GridPoint>, pixelSize: int, pixelCount: int, threshold: int)
    requires pixelSize > 0
  {
    layer == if img.Some? then Sample(img.value, pixelSize, pixelCount, threshold) else []
  }

  /** The globals of sketch.js. */
  class Sketch {
    var img1: Option<Image>
    var img2: Option<Image>
    var pixels1: seq<GridPoint>
    var pixels2: seq<GridPoint>
    var currentPixels: array<Position>
    var sourcePixels: seq<GridPoint>
    var targetPixels: seq<GridPoint>
    var pixelDelays: seq<real>
    var isAnimating: bool
    var animationProgress: real
    var isFirstImage: bool
    var pixelSize: int
    var pixelCount: int
    var threshold: int
    var delaySpread: int

    /** What every handler keeps true. */
    predicate Valid()
      reads this
    {
      && pixelSize > 0
      && delaySpread >= 0
      && 0.0 <= animationProgress <= 1.0
      && (!isAnimating ==> animationProgress == 0.0)
      && (isAnimating ==> img1.Some? && img2.Some?)
      && (forall k :: 0 <= k < |pixelDelays| ==> 0.0 <= pixelDelays[k] <= MaxDelay(delaySpread))
      && ((sourcePixels == pixels1 && targetPixels == pixels2) || (sourcePixels == pixels2 && targetPixels == pixels1))
      && currentPixels.Length == |pixels1|
    }

    /** Both images are there and a morph is under way: the tick does its work. */
    predicate Running()
      reads this
    {
      img1.Some? && img2.Some? && isAnimating
    }

    /** The safety check of the tick. */
    predicate LayersEmpty()
      reads this
    {
      currentPixels.Length == 0 || |sourcePixels| == 0 || |targetPixels| == 0
    }

    /** The tick reads `sourcePixels[i]`, `targetPixels[i]` and `pixelDelays[i]` for every current index. */
    predicate TickDefined()
      reads this
    {
      Running() && !LayersEmpty() ==>
        currentPixels.Length <= |sourcePixels| && currentPixels.Length <= |targetPixels| && currentPixels.Length <= |pixelDelays|
    }

    /** The generate button does something. */
    predicate CanStart()
      reads this
    {
      img1.Some? && img2.Some? && !isAnimating
    }

    /** `setup` with its two load callbacks run for the images that load. */
    constructor(first: Option<Image>, second: Option<Image>, samples: seq<real>)
      requires UnitSamples(samples, DefaultPixelCount)
      ensures Valid()
      ensures img1 == first && img2 == second
      ensures pixelSize == DefaultPixelSize && pixelCount == DefaultPixelCount
      ensures threshold == DefaultThreshold && delaySpread == DefaultDelaySpread
      ensures !isAnimating && animationProgress == 0.0 && isFirstImage
      ensures pixels1 == (if first.Some? then Sample(first.value, DefaultPixelSize, DefaultPixelCount, DefaultThreshold) else [])
      ensures pixels2 == (if second.Some? then Sample(second.value, DefaultPixelSize, DefaultPixelCount, DefaultThreshold) else [])
      ensures sourcePixels == pixels1 && targetPixels == pixels2
      ensures fresh(currentPixels) && currentPixels[..] == ToPositions(pixels1)
      ensures pixelDelays == DelaySchedule(samples, DefaultPixelCount, DefaultDelaySpread)
    {
      pixelSize := DefaultPixelSize;
      pixelCount := DefaultPixelCount;
      threshold := DefaultThreshold;
      delaySpread := DefaultDelaySpread;
      isAnimating := false;
      animationProgress := 0.0;
      isFirstImage := true;
      pixelDelays := [];
      img1 := first;
      img2 := second;
      var layer1: seq<GridPoint> := [];
      var layer2: seq<GridPoint> := [];
      if first.Some? {
        layer1 := ProcessImage(first.value, DefaultPixelSize, DefaultPixelCount, DefaultThreshold);
      }
      if second.Some? {
        layer2 := ProcessImage(second.value, DefaultPixelSize, DefaultPixelCount, DefaultThreshold);
      }
      pixels1 := layer1;
      pixels2 := layer2;
      sourcePixels := layer1;
      targetPixels := layer2;
      var copy := CopyLayer(layer1);
      currentPixels := copy;
      new;
      ResetPixelDelays(samples);
    }

    /** `resetPixelDelays`: a fresh schedule of `pixelCount` delays drawn from [0, delaySpread / 100]. */
    method ResetPixelDelays(samples: seq<real>)
      requires delaySpread >= 0
      requires UnitSamples(samples, pixelCount)
      modifies this
      ensures img1 == old(img1) && img2 == old(img2) && pixels1 == old(pixels1) && pixels2 == old(pixels2)
      ensures currentPixels == old(currentPixels) && sourcePixels == old(sourcePixels) && targetPixels == old(targetPixels)
      ensures isAnimating == old(isAnimating) && animationProgress == old(animationProgress) && isFirstImage == old(isFirstImage)
      ensures pixelSize == old(pixelSize) && pixelCount == old(pixelCount) && threshold == old(threshold) && delaySpread == old(delaySpread)
      ensures pixelDelays == DelaySchedule(samples, pixelCount, delaySpread)
    {
      var count := pixelCount;
      var maxDelay := MaxDelay(delaySpread);
      var delays: seq<real> := [];
      var i := 0;
      while i < count
        invariant 0 <= i <= (if count < 0 then 0 else count)
        invariant |delays| == i
        invariant forall k :: 0 <= k < i ==> delays[k] == Random(samples[k], 0.0, maxDelay)
      {
        delays := delays + [Random(samples[i], 0.0, maxDelay)];
        i := i + 1;
      }
      pixelDelays := delays;
    }

    /** The delay-spread slider: store the new spread and draw a new schedule. */
    method SetDelaySpread(spread: int, samples: seq<real>)
      requires Valid()
      requires spread >= 0
      requires UnitSamples(samples, pixelCount)
      modifies this
      ensures Valid()
      ensures delaySpread == spread
      ensures img1 == old(img1) && img2 == old(img2) && pixels1 == old(pixels1) && pixels2 == old(pixels2)
      ensures currentPixels == old(currentPixels) && sourcePixels == old(sourcePixels) && targetPixels == old(targetPixels)
      ensures isAnimating == old(isAnimating) && animationProgress == old(animationProgress) && isFirstImage == old(isFirstImage)
      ensures pixelSize == old(pixelSize) && pixelCount == old(pixelCount) && threshold == old(threshold)
      ensures pixelDelays == DelaySchedule(samples, pixelCount, spread)
    {
      delaySpread := spread;
      ResetPixelDelays(samples);
    }

    /** One frame of `draw` once both images have loaded: the animation block. */
    method Tick()
      requires Valid()
      requires TickDefined()
      modifies this, currentPixels
      ensures Valid()
      ensures currentPixels == old(currentPixels)
      ensures img1 == old(img1) && img2 == old(img2) && pixels1 == old(pixels1) && pixels2 == old(pixels2)
      ensures pixelDelays == old(pixelDelays)
      ensures pixelSize == old(pixelSize) && pixelCount == old(pixelCount) && threshold == old(threshold) && delaySpread == old(delaySpread)
      // not running: nothing moves
      ensures !old(Running()) ==>
        && animationProgress == old(animationProgress) && isAnimating == old(isAnimating) && isFirstImage == old(isFirstImage)
        && sourcePixels == old(sourcePixels) && targetPixels == old(targetPixels) && currentPixels[..] == old(currentPixels[..])
      // an empty layer: only the clock moves
      ensures old(Running()) && old(LayersEmpty()) ==>
        && animationProgress == Advance(old(animationProgress)) && isAnimating && isFirstImage == old(isFirstImage)
        && sourcePixels == old(sourcePixels) && targetPixels == old(targetPixels) && currentPixels[..] == old(currentPixels[..])
      // otherwise every current pixel is re-interpolated at the advanced progress
      ensures old(Running()) && !old(LayersEmpty()) ==>
        currentPixels[..] == InterpolateLayer(old(sourcePixels), old(targetPixels), pixelDelays, Advance(old(animationProgress)), currentPixels.Length)
      // and the layouts swap once every pixel has completed
      ensures old(Running()) && !old(LayersEmpty()) && AllComplete(Advance(old(animationProgress)), pixelDelays, currentPixels.Length) ==>
        && !isAnimating && isFirstImage == !old(isFirstImage) && animationProgress == 0.0
        && sourcePixels == old(targetPixels) && targetPixels == old(sourcePixels)
      ensures old(Running()) && !old(LayersEmpty()) && !AllComplete(Advance(old(animationProgress)), pixelDelays, currentPixels.Length) ==>
        && isAnimating && isFirstImage == old(isFirstImage) && animationProgress == Advance(old(animationProgress))
        && sourcePixels == old(sourcePixels) && targetPixels == old(targetPixels)
      // the clock never runs backwards during a morph
      ensures isAnimating ==> old(animationProgress) <= animationProgress
    {
      if img1.Some? && img2.Some? && isAnimating {
        animationProgress := Advance(animationProgress);
        if currentPixels.Length == 0 || |sourcePixels| == 0 || |targetPixels| == 0 {
          return;
        }
        InterpolateAll(currentPixels, sourcePixels, targetPixels, pixelDelays, animationProgress);
        var allPixelsComplete := AllComplete(animationProgress, pixelDelays, currentPixels.Length);
        if allPixelsComplete {
          isAnimating := false;
          isFirstImage := !isFirstImage;
          var temp := sourcePixels;
          sourcePixels := targetPixels;
          targetPixels := temp;
          animationProgress := 0.0;
        }
      }
    }

    /** The generate button: start a morph away from the layout on screen. */
    method Generate(samples: seq<real>)
      requires Valid()
      requires UnitSamples(samples, pixelCount)
      modifies this
      ensures Valid()
      ensures img1 == old(img1) && img2 == old(img2) && pixels1 == old(pixels1) && pixels2 == old(pixels2)
      ensures currentPixels == old(currentPixels) && isFirstImage == old(isFirstImage)
      ensures pixelSize == old(pixelSize) && pixelCount == old(pixelCount) && threshold == old(threshold) && delaySpread == old(delaySpread)
      ensures old(CanStart()) ==>
        && isAnimating && animationProgress == 0.0
        && pixelDelays == DelaySchedule(samples, pixelCount, delaySpread)
        && sourcePixels == (if isFirstImage then pixels1 else pixels2)
        && targetPixels == (if isFirstImage then pixels2 else pixels1)
      ensures !old(CanStart()) ==>
        && isAnimating == old(isAnimating) && animationProgress == old(animationProgress) && pixelDelays == old(pixelDelays)
        && sourcePixels == old(sourcePixels) && targetPixels == old(targetPixels)
    {
      if img1.Some? && img2.Some? && !isAnimating {
        isAnimating := true;
        animationProgress := 0.0;
        ResetPixelDelays(samples);
        sourcePixels := if isFirstImage then pixels1 else pixels2;
        targetPixels := if isFirstImage then pixels2 else pixels1;
      }
    }

    /** The pixel-size, pixel-count and threshold sliders: store the setting, then regenerate. */
    method Regenerate(change: Setting)
      requires Valid()
      requires change.PixelSize? ==> change.size > 0
      modifies this
      ensures Valid()
      ensures pixelSize == (if change.PixelSize? then change.size else old(pixelSize))
      ensures pixelCount == (if change.PixelCount? then change.count else old(pixelCount))
      ensures threshold == (if change.Threshold? then change.level else old(threshold))
      ensures pixels1 == (if img1.Some? then Sample(img1.value, pixelSize, pixelCount, threshold) else old(pixels1))
      ensures pixels2 == (if img2.Some? then Sample(img2.value, pixelSize, pixelCount, threshold) else old(pixels2))
      ensures fresh(currentPixels) && currentPixels[..] == ToPositions(pixels1)
      ensures sourcePixels == pixels1 && targetPixels == pixels2
      ensures img1 == old(img1) && img2 == old(img2) && pixelDelays == old(pixelDelays) && delaySpread == old(delaySpread)
      ensures isAnimating == old(isAnimating) && animationProgress == old(animationProgress) && isFirstImage == old(isFirstImage)
    {
      match change {
        case PixelSize(size) => pixelSize := size;
        case PixelCount(count) => pixelCount := count;
        case Threshold(level) => threshold := level;
      }
      RegenerateLayouts();
    }

    /** The body the three sliders share: resample every loaded image and show layout 1 again. */
    method RegenerateLayouts()
      requires pixelSize > 0
      modifies this
      ensures pixelSize == old(pixelSize) && pixelCount == old(pixelCount) && threshold == old(threshold) && delaySpread == old(delaySpread)
      ensures pixels1 == (if img1.Some? then Sample(img1.value, pixelSize, pixelCount, threshold) else old(pixels1))
      ensures pixels2 == (if img2.Some? then Sample(img2.value, pixelSize, pixelCount, threshold) else old(pixels2))
      ensures fresh(currentPixels) && currentPixels[..] == ToPositions(pixels1) && currentPixels.Length == |pixels1|
      ensures sourcePixels == pixels1 && targetPixels == pixels2
      ensures img1 == old(img1) && img2 == old(img2) && pixelDelays == old(pixelDelays)
      ensures isAnimating == old(isAnimating) && animationProgress == old(animationProgress) && isFirstImage == old(isFirstImage)
    {
      pixels1 := Resample(img1, pixels1, pixelSize, pixelCount, threshold);
      pixels2 := Resample(img2, pixels2, pixelSize, pixelCount, threshold);
      currentPixels := CopyLayer(pixels1);
      sourcePixels := pixels1;
      targetPixels := pixels2;
    }
  }

  /** Once a morph has started from sampled layouts with a fresh schedule, the tick is defined
      exactly when layout 1 is no longer than layout 2: the schedule covers layout 1 by itself. */
  lemma StartedTickDefined(s: Sketch)
    requires s.Valid() && s.Running() && !s.LayersEmpty()
    requires Sampled(s.img1, s.pixels1, s.pixelSize, s.pixelCount, s.threshold)
    requires |s.pixelDelays| == (if s.pixelCount < 0 then 0 else s.pixelCount)
    ensures s.TickDefined() <==> |s.pixels1| <= |s.pixels2|
  {
    SampleIsLayout(s.img1.value, s.pixelSize, s.pixelCount, s.threshold);
  }

  /** The tick is defined exactly when layout 2 and the delay schedule are at least as long as
      layout 1, whose copy `currentPixels` is (the layouts are used in either order). */
  lemma TickDefinedExactly(s: Sketch)
    requires s.Valid() && s.Running() && !s.LayersEmpty()
    ensures s.TickDefined() <==> |s.pixels1| <= |s.pixels2| && |s.pixels1| <= |s.pixelDelays|
  {
  }
}
