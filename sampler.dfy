/** The pixel-field sampler of sketch.js (`processImage`): enumerate the grid
    cells of a source image, keep the bright ones, order them brightest first,
    snap each into canvas space and accept them greedily, skipping canvas cells
    that are already taken, up to a point budget. */
module Sampler {
  import opened Arithmetic

  /** Logical canvas size fixed by `createCanvas(1280, 720)`. */
  const CanvasWidth: int := 1280
  const CanvasHeight: int := 720

  /** A decoded image: its extent and, for every pixel, the sum of its red,
      green and blue channels. Brightness is the mean of the three channels,
      so `mean > threshold` is compared here as `sum > 3 * threshold`. */
  datatype Image = Image(width: nat, height: nat, channelSum: (int, int) -> int)

  /** A candidate cell in image space with its brightness (as a channel sum). */
  datatype WeightedPosition = WeightedPosition(x: int, y: int, channelSum: int)

  /** A point of a layout: the top-left corner of a canvas grid cell. */
  datatype GridPoint = GridPoint(x: int, y: int)

  /** Grid cell (x, y) of the image lies inside it and is brighter than the threshold. */
  predicate IsBright(img: Image, gridSize: int, threshold: int, x: int, y: int)
    requires gridSize > 0
  {
    0 <= x < img.width && 0 <= y < img.height && x % gridSize == 0 && y % gridSize == 0
    && img.channelSum(x, y) > 3 * threshold
  }

  /** A candidate as the enumeration records it: a bright cell with its own brightness. */
  predicate IsCandidate(img: Image, gridSize: int, threshold: int, p: WeightedPosition)
    requires gridSize > 0
  {
    IsBright(img, gridSize, threshold, p.x, p.y) && p.channelSum == img.channelSum(p.x, p.y)
  }

  // ---------------------------------------------------------------------------
  // Enumeration: x outer, y inner, both stepping by the grid size from 0.

  /** The candidates of column x from row y downwards, in discovery order. */
  function Column(img: Image, gridSize: int, threshold: int, x: int, y: int): seq<WeightedPosition>
    requires gridSize > 0
    decreases img.height - y
  {
    if y >= img.height then []
    else
      var s := img.channelSum(x, y);
      (if s > 3 * threshold then [WeightedPosition(x, y, s)] else [])
      + Column(img, gridSize, threshold, x, y + gridSize)
  }

  /** The candidates of the columns from x rightwards, in discovery order. */
  function Columns(img: Image, gridSize: int, threshold: int, x: int): seq<WeightedPosition>
    requires gridSize > 0
    decreases img.width - x
  {
    if x >= img.width then []
    else Column(img, gridSize, threshold, x, 0) + Columns(img, gridSize, threshold, x + gridSize)
  }

  /** All candidates of the image, in the order the nested loops discover them. */
  function Candidates(img: Image, gridSize: int, threshold: int): seq<WeightedPosition>
    requires gridSize > 0
  {
    Columns(img, gridSize, threshold, 0)
  }

  /** A column from row y down holds exactly the bright grid cells of column x at or below y. */
  lemma {:induction false} ColumnMembers(img: Image, gridSize: int, threshold: int, x: int, y: int, p: WeightedPosition)
    requires gridSize > 0 && 0 <= y && y % gridSize == 0
    ensures p in Column(img, gridSize, threshold, x, y) <==>
      p.x == x && y <= p.y < img.height && p.y % gridSize == 0
      && p.channelSum == img.channelSum(x, p.y) && p.channelSum > 3 * threshold
    decreases img.height - y
  {
    if y < img.height {
      StepMultiple(y, gridSize);
      ColumnMembers(img, gridSize, threshold, x, y + gridSize, p);
      if p.x == x && y < p.y && p.y % gridSize == 0 {
        NextMultiple(y, p.y, gridSize);
      }
    }
  }

  /** The columns from x rightwards hold exactly the candidates at or right of x. */
  lemma {:induction false} ColumnsMembers(img: Image, gridSize: int, threshold: int, x: int, p: WeightedPosition)
    requires gridSize > 0 && 0 <= x && x % gridSize == 0
    ensures p in Columns(img, gridSize, threshold, x) <==> x <= p.x && IsCandidate(img, gridSize, threshold, p)
    decreases img.width - x
  {
    if x < img.width {
      StepMultiple(x, gridSize);
      ColumnMembers(img, gridSize, threshold, x, 0, p);
      ColumnsMembers(img, gridSize, threshold, x + gridSize, p);
      if x < p.x && p.x % gridSize == 0 {
        NextMultiple(x, p.x, gridSize);
      }
    }
  }

  /** The enumeration finds exactly the bright grid cells of the image, each with its brightness. */
  lemma CandidatesExactly(img: Image, gridSize: int, threshold: int, p: WeightedPosition)
    requires gridSize > 0
    ensures p in Candidates(img, gridSize, threshold) <==> IsCandidate(img, gridSize, threshold, p)
  {
    ColumnsMembers(img, gridSize, threshold, 0, p);
  }

  // ---------------------------------------------------------------------------
  // Ordering: `positions.sort((a, b) => b.brightness - a.brightness)`, a stable sort.

  /** Brightness never increases along s. */
  predicate NonIncreasing(s: seq<WeightedPosition>)
  {
    forall i, j :: 0 <= i < j < |s| ==> s[i].channelSum >= s[j].channelSum
  }

  /** The elements of s with brightness b, in their order in s. */
  function WithBrightness(s: seq<WeightedPosition>, b: int): seq<WeightedPosition>
  {
    if s == [] then []
    else (if s[0].channelSum == b then [s[0]] else []) + WithBrightness(s[1..], b)
  }

  /** Inserts p ahead of every element not brighter than p. */
  function Insert(p: WeightedPosition, s: seq<WeightedPosition>): seq<WeightedPosition>
  {
    if s == [] || s[0].channelSum <= p.channelSum then [p] + s
    else [s[0]] + Insert(p, s[1..])
  }

  /** A stable sort by brightness, brightest first, as JavaScript's `Array.prototype.sort` does it. */
  function SortByBrightness(s: seq<WeightedPosition>): seq<WeightedPosition>
  {
    if s == [] then [] else Insert(s[0], SortByBrightness(s[1..]))
  }

  /** Inserting adds exactly one element. */
  lemma {:induction false} InsertPermutes(p: WeightedPosition, s: seq<WeightedPosition>)
    ensures multiset(Insert(p, s)) == multiset(s) + multiset{p}
  {
    if s == [] || s[0].channelSum <= p.channelSum {
      assert Insert(p, s) == [p] + s;
    } else {
      InsertPermutes(p, s[1..]);
      assert s == [s[0]] + s[1..];
      assert Insert(p, s) == [s[0]] + Insert(p, s[1..]);
    }
  }

  /** A brightness bound on p and on s holds for every element after inserting. */
  lemma {:induction false} InsertBelow(p: WeightedPosition, s: seq<WeightedPosition>, b: int)
    requires p.channelSum <= b
    requires forall k :: 0 <= k < |s| ==> s[k].channelSum <= b
    ensures forall k :: 0 <= k < |Insert(p, s)| ==> Insert(p, s)[k].channelSum <= b
  {
    if s == [] || s[0].channelSum <= p.channelSum {
      assert Insert(p, s) == [p] + s;
    } else {
      InsertBelow(p, s[1..], b);
      assert Insert(p, s) == [s[0]] + Insert(p, s[1..]);
    }
  }

  /** Inserting keeps a sequence sorted brightest first. */
  lemma {:induction false} InsertOrdered(p: WeightedPosition, s: seq<WeightedPosition>)
    requires NonIncreasing(s)
    ensures NonIncreasing(Insert(p, s))
  {
    if s == [] || s[0].channelSum <= p.channelSum {
      assert Insert(p, s) == [p] + s;
    } else {
      var rest := Insert(p, s[1..]);
      InsertOrdered(p, s[1..]);
      InsertBelow(p, s[1..], s[0].channelSum);
      assert Insert(p, s) == [s[0]] + rest;
    }
  }

  /** Inserting adds p to the run of its brightness, ahead of the elements already there. */
  lemma {:induction false} InsertStable(p: WeightedPosition, s: seq<WeightedPosition>, b: int)
    ensures WithBrightness(Insert(p, s), b) ==
      (if p.channelSum == b then [p] else []) + WithBrightness(s, b)
  {
    var here := if p.channelSum == b then [p] else [];
    if s == [] || s[0].channelSum <= p.channelSum {
      var t := [p] + s;
      assert Insert(p, s) == t;
      assert t[0] == p && t[1..] == s;
      assert WithBrightness(t, b) == here + WithBrightness(s, b);
    } else {
      var first := if s[0].channelSum == b then [s[0]] else [];
      var rest := Insert(p, s[1..]);
      var t := [s[0]] + rest;
      assert Insert(p, s) == t;
      assert t[0] == s[0] && t[1..] == rest;
      assert WithBrightness(t, b) == first + WithBrightness(rest, b);
      InsertStable(p, s[1..], b);
      assert WithBrightness(s, b) == first + WithBrightness(s[1..], b);
      assert first == [] || here == [];
      assert first + (here + WithBrightness(s[1..], b)) == here + (first + WithBrightness(s[1..], b));
    }
  }

  /** The sort returns a permutation of its input. */
  lemma {:induction false} SortPermutes(s: seq<WeightedPosition>)
    ensures multiset(SortByBrightness(s)) == multiset(s)
  {
    if s != [] {
      SortPermutes(s[1..]);
      InsertPermutes(s[0], SortByBrightness(s[1..]));
      assert s == [s[0]] + s[1..];
    }
  }

  /** The sort puts the brightest first. */
  lemma {:induction false} SortOrders(s: seq<WeightedPosition>)
    ensures NonIncreasing(SortByBrightness(s))
  {
    if s != [] {
      SortOrders(s[1..]);
      InsertOrdered(s[0], SortByBrightness(s[1..]));
    }
  }

  /** The sort is stable: elements of equal brightness keep their discovery order. */
  lemma {:induction false} SortIsStable(s: seq<WeightedPosition>, b: int)
    ensures WithBrightness(SortByBrightness(s), b) == WithBrightness(s, b)
  {
    if s != [] {
      SortIsStable(s[1..], b);
      InsertStable(s[0], SortByBrightness(s[1..]), b);
    }
  }

  // ---------------------------------------------------------------------------
  // Canvas mapping: `floor(map(c, 0, imageExtent, 0, canvasExtent) / gridSize) * gridSize`.

  /** For 0 <= c the mapped value c * canvasExtent / imageExtent is non-negative,
      so flooring it divided by the grid size is integer division. */
  function SnapCoordinate(c: int, imageExtent: int, canvasExtent: int, gridSize: int): (r: int)
    requires 0 <= c < imageExtent && gridSize > 0 && canvasExtent > 0
    ensures 0 <= r < canvasExtent && r % gridSize == 0
  {
    SnapBounds(c, imageExtent, canvasExtent, gridSize);
    (c * canvasExtent) / (imageExtent * gridSize) * gridSize
  }

  lemma SnapBounds(c: int, imageExtent: int, canvasExtent: int, gridSize: int)
    requires 0 <= c < imageExtent && gridSize > 0 && canvasExtent > 0
    ensures var r := (c * canvasExtent) / (imageExtent * gridSize) * gridSize;
      0 <= r < canvasExtent && r % gridSize == 0
  {
    var n, d := c * canvasExtent, imageExtent * gridSize;
    MulMonotone(0, c, canvasExtent);
    MulStrict(0, imageExtent, gridSize);
    var q := n / d;
    assert d * q + n % d == n && 0 <= n % d;
    if q < 0 {
      MulStrict(q, 0, d);
      assert false;
    }
    var r := q * gridSize;
    MulMonotone(0, q, gridSize);
    assert r * imageExtent == d * q;
    MulStrict(c, imageExtent, canvasExtent);
    if r >= canvasExtent {
      MulMonotone(canvasExtent, r, imageExtent);
      assert false;
    }
    assert r == gridSize * q;
    MultipleMod(gridSize, q);
  }

  /** The candidate lies in the image, so its canvas cell is defined. */
  predicate InImage(img: Image, p: WeightedPosition)
  {
    0 <= p.x < img.width && 0 <= p.y < img.height
  }

  /** The canvas grid cell a candidate maps to; also the `occupied` key `${canvasX},${canvasY}`. */
  function Snap(img: Image, gridSize: int, p: WeightedPosition): (r: GridPoint)
    requires gridSize > 0 && InImage(img, p)
    ensures OnCanvasGrid(r, gridSize)
  {
    GridPoint(SnapCoordinate(p.x, img.width, CanvasWidth, gridSize),
              SnapCoordinate(p.y, img.height, CanvasHeight, gridSize))
  }

  /** On the canvas grid and inside the canvas. */
  predicate OnCanvasGrid(p: GridPoint, gridSize: int)
    requires gridSize > 0
  {
    0 <= p.x < CanvasWidth && 0 <= p.y < CanvasHeight && p.x % gridSize == 0 && p.y % gridSize == 0
  }

  predicate AllInImage(img: Image, ps: seq<WeightedPosition>)
  {
    forall k :: 0 <= k < |ps| ==> InImage(img, ps[k])
  }

  /** The canvas cell of every candidate, in order. */
  function SnapAll(img: Image, gridSize: int, ps: seq<WeightedPosition>): (r: seq<GridPoint>)
    requires gridSize > 0 && AllInImage(img, ps)
    ensures |r| == |ps|
  {
    if ps == [] then [] else [Snap(img, gridSize, ps[0])] + SnapAll(img, gridSize, ps[1..])
  }

  lemma {:induction false} SnapAllAt(img: Image, gridSize: int, ps: seq<WeightedPosition>, k: nat)
    requires gridSize > 0 && AllInImage(img, ps) && k < |ps|
    ensures SnapAll(img, gridSize, ps)[k] == Snap(img, gridSize, ps[k])
  {
    if k > 0 {
      SnapAllAt(img, gridSize, ps[1..], k - 1);
    }
  }

  // ---------------------------------------------------------------------------
  // Greedy acceptance, over the canvas keys of the sorted candidates.

  /** The indices the acceptance loop keeps when it resumes at index i: `room`
      is the budget left (`pixelCount - points.length`) and `occupied` the
      canvas cells already taken. */
  function Accept(keys: seq<GridPoint>, i: nat, room: int, occupied: set<GridPoint>): (r: seq<nat>)
    requires i <= |keys|
    ensures |r| <= (if room < 0 then 0 else room)
    ensures forall k :: 0 <= k < |r| ==> i <= r[k] < |keys|
    ensures forall j, k :: 0 <= j < k < |r| ==> r[j] < r[k]
    decreases |keys| - i
  {
    if i == |keys| || room <= 0 then []
    else if keys[i] in occupied then Accept(keys, i + 1, room, occupied)
    else [i] + Accept(keys, i + 1, room - 1, occupied + {keys[i]})
  }

  /** The elements of s at the given indices, in that order. */
  function Select<T>(s: seq<T>, idx: seq<nat>): (r: seq<T>)
    requires forall k :: 0 <= k < |idx| ==> idx[k] < |s|
    ensures |r| == |idx|
    ensures forall k :: 0 <= k < |idx| ==> r[k] == s[idx[k]]
  {
    seq(|idx|, k requires 0 <= k < |idx| => s[idx[k]])
  }

  /** The keys the acceptance loop pushes when it resumes at index i with budget `room`
      left and the canvas cells `occupied` already taken. */
  function Walk(keys: seq<GridPoint>, i: nat, room: int, occupied: set<GridPoint>): (r: seq<GridPoint>)
    requires i <= |keys|
    ensures |r| <= (if room < 0 then 0 else room)
    ensures forall k :: 0 <= k < |r| ==> r[k] !in occupied && r[k] in keys[i..]
    decreases |keys| - i
  {
    if i == |keys| || room <= 0 then []
    else if keys[i] in occupied then Walk(keys, i + 1, room, occupied)
    else [keys[i]] + Walk(keys, i + 1, room - 1, occupied + {keys[i]})
  }

  /** The walk pushes exactly the keys at the indices Accept picks. */
  lemma {:induction false} WalkSelects(keys: seq<GridPoint>, i: nat, room: int, occupied: set<GridPoint>)
    requires i <= |keys|
    ensures Walk(keys, i, room, occupied) == Select(keys, Accept(keys, i, room, occupied))
    decreases |keys| - i
  {
    if i == |keys| || room <= 0 {
    } else if keys[i] in occupied {
      WalkSelects(keys, i + 1, room, occupied);
    } else {
      var rest := Accept(keys, i + 1, room - 1, occupied + {keys[i]});
      assert Accept(keys, i, room, occupied) == [i] + rest;
      WalkSelects(keys, i + 1, room - 1, occupied + {keys[i]});
      SelectCons(keys, i, rest);
    }
  }

  lemma SelectCons<T>(s: seq<T>, i: nat, idx: seq<nat>)
    requires i < |s|
    requires forall k :: 0 <= k < |idx| ==> idx[k] < |s|
    ensures Select(s, [i] + idx) == [s[i]] + Select(s, idx)
  {
    var l := Select(s, [i] + idx);
    var r := [s[i]] + Select(s, idx);
    assert |l| == |r|;
    forall k | 0 <= k < |l| ensures l[k] == r[k] {
      if k > 0 {
        assert ([i] + idx)[k] == idx[k - 1];
      }
    }
  }

  /** No key at the given indices is in occupied and no key occurs twice among them. */
  predicate FreshAndDistinct(keys: seq<GridPoint>, idx: seq<nat>, occupied: set<GridPoint>)
    requires forall k :: 0 <= k < |idx| ==> idx[k] < |keys|
  {
    (forall k :: 0 <= k < |idx| ==> keys[idx[k]] !in occupied)
    && (forall j, k :: 0 <= j < k < |idx| ==> keys[idx[j]] != keys[idx[k]])
  }

  /** Accepted keys are distinct and none of them was occupied before. */
  lemma {:induction false} AcceptDistinct(keys: seq<GridPoint>, i: nat, room: int, occupied: set<GridPoint>)
    requires i <= |keys|
    ensures FreshAndDistinct(keys, Accept(keys, i, room, occupied), occupied)
    decreases |keys| - i
  {
    if i < |keys| && room > 0 {
      if keys[i] in occupied {
        AcceptDistinct(keys, i + 1, room, occupied);
      } else {
        var more := occupied + {keys[i]};
        AcceptDistinct(keys, i + 1, room - 1, more);
        var tail := Accept(keys, i + 1, room - 1, more);
        assert FreshAndDistinct(keys, tail, more);
        var a := [i] + tail;
        assert Accept(keys, i, room, occupied) == a;
        assert forall k :: 0 < k < |a| ==> a[k] == tail[k - 1];
      }
    }
  }

  /** While there is room left, the walk accepts every key not yet occupied:
      it stops early only at the budget. */
  lemma {:induction false} AcceptCovers(keys: seq<GridPoint>, i: nat, room: int, occupied: set<GridPoint>, j: nat)
    requires i <= j < |keys|
    requires |Accept(keys, i, room, occupied)| < room
    ensures keys[j] in occupied || keys[j] in Select(keys, Accept(keys, i, room, occupied))
    decreases |keys| - i
  {
    var a := Select(keys, Accept(keys, i, room, occupied));
    if keys[i] in occupied {
      if j > i {
        AcceptCovers(keys, i + 1, room, occupied, j);
      }
    } else {
      var more := occupied + {keys[i]};
      var tail := Select(keys, Accept(keys, i + 1, room - 1, more));
      assert a == [keys[i]] + tail;
      if j > i {
        AcceptCovers(keys, i + 1, room - 1, more, j);
        if keys[j] != keys[i] && keys[j] !in occupied {
          assert keys[j] in tail;
        }
      }
    }
  }

  /** A free key the walk passes over lies beyond the point where the budget ran out:
      every accepted index comes before it and the whole budget is used. */
  lemma {:induction false} AcceptSkipsOnlyWhenFull(keys: seq<GridPoint>, i: nat, room: int, occupied: set<GridPoint>, j: nat)
    requires i <= j < |keys| && keys[j] !in occupied
    requires keys[j] !in Select(keys, Accept(keys, i, room, occupied))
    ensures |Accept(keys, i, room, occupied)| == (if room < 0 then 0 else room)
    ensures forall k :: 0 <= k < |Accept(keys, i, room, occupied)| ==> Accept(keys, i, room, occupied)[k] < j
    decreases |keys| - i
  {
    if room > 0 {
      if keys[i] in occupied {
        AcceptSkipsOnlyWhenFull(keys, i + 1, room, occupied, j);
      } else {
        var more := occupied + {keys[i]};
        var rest := Accept(keys, i + 1, room - 1, more);
        assert Accept(keys, i, room, occupied) == [i] + rest;
        SelectCons(keys, i, rest);
        assert keys[j] != keys[i];
        AcceptSkipsOnlyWhenFull(keys, i + 1, room - 1, more, j);
      }
    }
  }

  /** Every key at the given indices occurs there for the first time at or after index i. */
  predicate FirstOccurrences(keys: seq<GridPoint>, i: nat, idx: seq<nat>)
    requires forall k :: 0 <= k < |idx| ==> idx[k] < |keys|
  {
    forall k, j :: 0 <= k < |idx| && i <= j < idx[k] ==> keys[j] != keys[idx[k]]
  }

  /** The walk keeps the first candidate of every canvas cell it accepts: no earlier
      candidate from the resume point on snaps to the same cell. */
  lemma {:induction false} AcceptFirstOccurrence(keys: seq<GridPoint>, i: nat, room: int, occupied: set<GridPoint>)
    requires i <= |keys|
    ensures FirstOccurrences(keys, i, Accept(keys, i, room, occupied))
    decreases |keys| - i
  {
    if i < |keys| && room > 0 {
      if keys[i] in occupied {
        AcceptFirstOccurrence(keys, i + 1, room, occupied);
        AcceptDistinct(keys, i + 1, room, occupied);
      } else {
        var more := occupied + {keys[i]};
        var tail := Accept(keys, i + 1, room - 1, more);
        AcceptFirstOccurrence(keys, i + 1, room - 1, more);
        AcceptDistinct(keys, i + 1, room - 1, more);
        var a := [i] + tail;
        assert Accept(keys, i, room, occupied) == a;
        forall k, j | 0 <= k < |a| && i <= j < a[k] ensures keys[j] != keys[a[k]] {
          if k > 0 {
            assert a[k] == tail[k - 1];
            assert keys[tail[k - 1]] !in more;
          }
        }
      }
    }
  }

  /** From an empty `occupied` set the walk accepts nothing exactly when there is no budget or no key. */
  lemma AcceptEmpty(keys: seq<GridPoint>, room: int)
    ensures Accept(keys, 0, room, {}) == [] <==> room <= 0 || keys == []
  {
  }

  // ---------------------------------------------------------------------------
  // The whole sampler.

  /** The candidates in the order the acceptance loop visits them. */
  function SortedCandidates(img: Image, gridSize: int, threshold: int): (s: seq<WeightedPosition>)
    requires gridSize > 0
    ensures AllInImage(img, s)
    ensures forall k :: 0 <= k < |s| ==> IsCandidate(img, gridSize, threshold, s[k])
  {
    var c := Candidates(img, gridSize, threshold);
    var s := SortByBrightness(c);
    SortPermutes(c);
    assert forall k :: 0 <= k < |s| ==> IsCandidate(img, gridSize, threshold, s[k]) by {
      forall k | 0 <= k < |s| ensures IsCandidate(img, gridSize, threshold, s[k]) {
        assert s[k] in multiset(s);
        CandidatesExactly(img, gridSize, threshold, s[k]);
      }
    }
    s
  }

  /** The canvas key of each sorted candidate. */
  function CanvasKeys(img: Image, gridSize: int, threshold: int): (keys: seq<GridPoint>)
    requires gridSize > 0
  {
    SnapAll(img, gridSize, SortedCandidates(img, gridSize, threshold))
  }

  /** The indices, into the sorted candidates, of the candidates `processImage` keeps. */
  function Accepted(img: Image, gridSize: int, pixelCount: int, threshold: int): seq<nat>
    requires gridSize > 0
  {
    Accept(CanvasKeys(img, gridSize, threshold), 0, pixelCount, {})
  }

  /** The candidates `processImage` keeps, in acceptance order. */
  function Picks(img: Image, gridSize: int, pixelCount: int, threshold: int): seq<WeightedPosition>
    requires gridSize > 0
  {
    Select(SortedCandidates(img, gridSize, threshold), Accepted(img, gridSize, pixelCount, threshold))
  }

  /** The layout `processImage(img)` returns for the given grid size, point budget and threshold. */
  function Sample(img: Image, gridSize: int, pixelCount: int, threshold: int): seq<GridPoint>
    requires gridSize > 0
  {
    Walk(CanvasKeys(img, gridSize, threshold), 0, pixelCount, {})
  }

  /** The layout seen through the indices of the candidates it keeps. */
  lemma SampleSelects(img: Image, gridSize: int, pixelCount: int, threshold: int)
    requires gridSize > 0
    ensures Sample(img, gridSize, pixelCount, threshold)
      == Select(CanvasKeys(img, gridSize, threshold), Accepted(img, gridSize, pixelCount, threshold))
  {
    WalkSelects(CanvasKeys(img, gridSize, threshold), 0, pixelCount, {});
  }

  /** At most `pixelCount` points, each a distinct cell of the canvas grid. */
  lemma SampleIsLayout(img: Image, gridSize: int, pixelCount: int, threshold: int)
    requires gridSize > 0
    ensures var r := Sample(img, gridSize, pixelCount, threshold);
      |r| <= (if pixelCount < 0 then 0 else pixelCount)
      && (forall k :: 0 <= k < |r| ==> OnCanvasGrid(r[k], gridSize))
      && (forall j, k :: 0 <= j < k < |r| ==> r[j] != r[k])
  {
    SampleSelects(img, gridSize, pixelCount, threshold);
    var s := SortedCandidates(img, gridSize, threshold);
    var keys := CanvasKeys(img, gridSize, threshold);
    var idx := Accepted(img, gridSize, pixelCount, threshold);
    var r := Sample(img, gridSize, pixelCount, threshold);
    AcceptDistinct(keys, 0, pixelCount, {});
    assert FreshAndDistinct(keys, idx, {});
    forall k | 0 <= k < |r| ensures OnCanvasGrid(r[k], gridSize) {
      SnapAllAt(img, gridSize, s, idx[k]);
    }
  }

  /** Every point is the canvas cell of a bright cell of the image, and the
      points come brightest first. */
  lemma SampleFollowsBrightness(img: Image, gridSize: int, pixelCount: int, threshold: int)
    requires gridSize > 0
    ensures var r := Sample(img, gridSize, pixelCount, threshold);
      var p := Picks(img, gridSize, pixelCount, threshold);
      |p| == |r|
      && (forall k :: 0 <= k < |p| ==>
            IsCandidate(img, gridSize, threshold, p[k]) && InImage(img, p[k]) && r[k] == Snap(img, gridSize, p[k]))
      && NonIncreasing(p)
  {
    SampleSelects(img, gridSize, pixelCount, threshold);
    var s := SortedCandidates(img, gridSize, threshold);
    var idx := Accepted(img, gridSize, pixelCount, threshold);
    var p := Picks(img, gridSize, pixelCount, threshold);
    var r := Sample(img, gridSize, pixelCount, threshold);
    SortOrders(Candidates(img, gridSize, threshold));
    forall k | 0 <= k < |p| ensures r[k] == Snap(img, gridSize, p[k]) {
      SnapAllAt(img, gridSize, s, idx[k]);
    }
    forall i, j | 0 <= i < j < |p| ensures p[i].channelSum >= p[j].channelSum {
      assert idx[i] < idx[j];
    }
  }

  /** The layout is empty exactly when the budget is not positive or no cell is bright. */
  lemma SampleEmpty(img: Image, gridSize: int, pixelCount: int, threshold: int)
    requires gridSize > 0
    ensures Sample(img, gridSize, pixelCount, threshold) == [] <==>
      pixelCount <= 0 || forall x, y :: !IsBright(img, gridSize, threshold, x, y)
  {
    SampleSelects(img, gridSize, pixelCount, threshold);
    var c := Candidates(img, gridSize, threshold);
    var s := SortedCandidates(img, gridSize, threshold);
    SortPermutes(c);
    AcceptEmpty(CanvasKeys(img, gridSize, threshold), pixelCount);
    if c == [] {
      assert s == [];
      forall x, y ensures !IsBright(img, gridSize, threshold, x, y) {
        CandidatesExactly(img, gridSize, threshold, WeightedPosition(x, y, img.channelSum(x, y)));
      }
    } else {
      CandidatesExactly(img, gridSize, threshold, c[0]);
      assert s != [] by {
        assert c[0] in multiset(c);
      }
    }
  }

  /** Fewer points than the budget means every bright cell's canvas cell is in the layout. */
  lemma SampleFillsBudget(img: Image, gridSize: int, pixelCount: int, threshold: int, p: WeightedPosition)
    requires gridSize > 0
    requires IsCandidate(img, gridSize, threshold, p)
    requires |Sample(img, gridSize, pixelCount, threshold)| < pixelCount
    ensures InImage(img, p) && Snap(img, gridSize, p) in Sample(img, gridSize, pixelCount, threshold)
  {
    SampleSelects(img, gridSize, pixelCount, threshold);
    var s := SortedCandidates(img, gridSize, threshold);
    SortPermutes(Candidates(img, gridSize, threshold));
    CandidatesExactly(img, gridSize, threshold, p);
    assert p in multiset(s);
    var m :| 0 <= m < |s| && s[m] == p;
    SnapAllAt(img, gridSize, s, m);
    AcceptCovers(CanvasKeys(img, gridSize, threshold), 0, pixelCount, {}, m);
  }

  /** A bright cell whose canvas cell is missing from the layout was passed over only
      because the budget was full of candidates at least as bright. */
  lemma SampleTakesBrightest(img: Image, gridSize: int, pixelCount: int, threshold: int, p: WeightedPosition)
    requires gridSize > 0
    requires IsCandidate(img, gridSize, threshold, p)
    requires Snap(img, gridSize, p) !in Sample(img, gridSize, pixelCount, threshold)
    ensures |Sample(img, gridSize, pixelCount, threshold)| == (if pixelCount < 0 then 0 else pixelCount)
    ensures var picks := Picks(img, gridSize, pixelCount, threshold);
      forall k :: 0 <= k < |picks| ==> picks[k].channelSum >= p.channelSum
  {
    SampleSelects(img, gridSize, pixelCount, threshold);
    var s := SortedCandidates(img, gridSize, threshold);
    var keys := CanvasKeys(img, gridSize, threshold);
    SortPermutes(Candidates(img, gridSize, threshold));
    SortOrders(Candidates(img, gridSize, threshold));
    CandidatesExactly(img, gridSize, threshold, p);
    assert p in multiset(s);
    var m :| 0 <= m < |s| && s[m] == p;
    SnapAllAt(img, gridSize, s, m);
    AcceptSkipsOnlyWhenFull(keys, 0, pixelCount, {}, m);
    SelectBefore(s, Accepted(img, gridSize, pixelCount, threshold), m);
  }

  /** The point the layout holds for a canvas cell comes from the brightest candidate
      that snaps to that cell. */
  lemma SampleBrightestPerCell(img: Image, gridSize: int, pixelCount: int, threshold: int, p: WeightedPosition, k: nat)
    requires gridSize > 0
    requires IsCandidate(img, gridSize, threshold, p)
    requires k < |Sample(img, gridSize, pixelCount, threshold)|
    requires Sample(img, gridSize, pixelCount, threshold)[k] == Snap(img, gridSize, p)
    ensures |Picks(img, gridSize, pixelCount, threshold)| == |Sample(img, gridSize, pixelCount, threshold)|
    ensures Picks(img, gridSize, pixelCount, threshold)[k].channelSum >= p.channelSum
  {
    SampleSelects(img, gridSize, pixelCount, threshold);
    var s := SortedCandidates(img, gridSize, threshold);
    var keys := CanvasKeys(img, gridSize, threshold);
    var idx := Accepted(img, gridSize, pixelCount, threshold);
    SortPermutes(Candidates(img, gridSize, threshold));
    SortOrders(Candidates(img, gridSize, threshold));
    CandidatesExactly(img, gridSize, threshold, p);
    assert p in multiset(s);
    var m :| 0 <= m < |s| && s[m] == p;
    SnapAllAt(img, gridSize, s, m);
    AcceptFirstOccurrence(keys, 0, pixelCount, {});
    assert keys[m] == keys[idx[k]];
    assert idx[k] <= m;
    assert Picks(img, gridSize, pixelCount, threshold)[k] == s[idx[k]];
  }

  /** In a sequence sorted brightest first, elements at indices before m are at least as bright as element m. */
  lemma SelectBefore(s: seq<WeightedPosition>, idx: seq<nat>, m: nat)
    requires m < |s| && NonIncreasing(s)
    requires forall k :: 0 <= k < |idx| ==> idx[k] < m
    ensures forall k :: 0 <= k < |idx| ==> Select(s, idx)[k].channelSum >= s[m].channelSum
  {
  }

  /** One column of the enumeration, unfolded behind a prefix. */
  lemma ColumnsStep(img: Image, gridSize: int, threshold: int, x: int, prefix: seq<WeightedPosition>)
    requires gridSize > 0 && x < img.width
    ensures prefix + Columns(img, gridSize, threshold, x)
      == prefix + Column(img, gridSize, threshold, x, 0) + Columns(img, gridSize, threshold, x + gridSize)
  {
  }

  /** One row of a column, unfolded between a prefix and a suffix. */
  lemma ColumnStep(img: Image, gridSize: int, threshold: int, x: int, y: int, prefix: seq<WeightedPosition>, suffix: seq<WeightedPosition>)
    requires gridSize > 0 && y < img.height
    ensures var s := img.channelSum(x, y);
      prefix + Column(img, gridSize, threshold, x, y) + suffix
      == (if s > 3 * threshold then prefix + [WeightedPosition(x, y, s)] else prefix)
         + Column(img, gridSize, threshold, x, y + gridSize) + suffix
  {
  }

  /** One step of the acceptance walk, unfolded behind the keys already pushed. */
  lemma WalkStep(keys: seq<GridPoint>, i: nat, room: int, occupied: set<GridPoint>, prefix: seq<GridPoint>)
    requires i < |keys| && room > 0
    ensures prefix + Walk(keys, i, room, occupied) ==
      if keys[i] in occupied then prefix + Walk(keys, i + 1, room, occupied)
      else (prefix + [keys[i]]) + Walk(keys, i + 1, room - 1, occupied + {keys[i]})
  {
  }


  /** The enumeration phase of `processImage`: the nested loops over the grid
      cells that push every cell brighter than the threshold. */
  method CollectCandidates(img: Image, gridSize: int, threshold: int) returns (positions: seq<WeightedPosition>)
    requires gridSize > 0
    ensures positions == Candidates(img, gridSize, threshold)
    ensures forall k :: 0 <= k < |positions| ==> IsCandidate(img, gridSize, threshold, positions[k])
  {
    ghost var all := Candidates(img, gridSize, threshold);
    positions := [];
    var x := 0;
    while x < img.width
      invariant 0 <= x
      invariant positions + Columns(img, gridSize, threshold, x) == all
      decreases img.width - x
    {
      ghost var rest := Columns(img, gridSize, threshold, x + gridSize);
      ColumnsStep(img, gridSize, threshold, x, positions);
      var y := 0;
      while y < img.height
        invariant 0 <= y
        invariant positions + Column(img, gridSize, threshold, x, y) + rest == all
        decreases img.height - y
      {
        var brightness := img.channelSum(x, y);
        ColumnStep(img, gridSize, threshold, x, y, positions, rest);
        if brightness > 3 * threshold {
          positions := positions + [WeightedPosition(x, y, brightness)];
        }
        y := y + gridSize;
      }
      assert positions + rest == all;
      x := x + gridSize;
    }
    assert positions == all;
    forall k | 0 <= k < |positions| ensures IsCandidate(img, gridSize, threshold, positions[k]) {
      CandidatesExactly(img, gridSize, threshold, positions[k]);
    }
  }

  /** The acceptance loop of `processImage` over candidates already sorted: snap each to
      its canvas cell and keep it unless that cell is taken, until `pixelCount` are kept. */
  method AcceptCandidates(img: Image, gridSize: int, pixelCount: int, positions: seq<WeightedPosition>) returns (points: seq<GridPoint>)
    requires gridSize > 0 && AllInImage(img, positions)
    ensures points == Walk(SnapAll(img, gridSize, positions), 0, pixelCount, {})
  {
    ghost var keys := SnapAll(img, gridSize, positions);
    ghost var goal := Walk(keys, 0, pixelCount, {});
    var occupied: set<GridPoint> := {};
    points := [];
    var i := 0;
    while i < |positions|
      invariant 0 <= i <= |positions|
      invariant points + Walk(keys, i, pixelCount - |points|, occupied) == goal
    {
      if |points| >= pixelCount {
        break;
      }
      var pos := positions[i];
      var key := Snap(img, gridSize, pos);
      SnapAllAt(img, gridSize, positions, i);
      WalkStep(keys, i, pixelCount - |points|, occupied, points);
      if key !in occupied {
        occupied := occupied + {key};
        points := points + [key];
      }
      i := i + 1;
    }
  }

  /** `processImage`: enumerate the bright grid cells, sort them brightest first (stably),
      then accept greedily with an `occupied` set. */
  method ProcessImage(img: Image, gridSize: int, pixelCount: int, threshold: int) returns (points: seq<GridPoint>)
    requires gridSize > 0
    ensures points == Sample(img, gridSize, pixelCount, threshold)
    ensures |points| <= (if pixelCount < 0 then 0 else pixelCount)
    ensures forall k :: 0 <= k < |points| ==> OnCanvasGrid(points[k], gridSize)
    ensures forall j, k :: 0 <= j < k < |points| ==> points[j] != points[k]
  {
    var positions := CollectCandidates(img, gridSize, threshold);
    positions := SortByBrightness(positions);
    assert positions == SortedCandidates(img, gridSize, threshold);
    points := AcceptCandidates(img, gridSize, pixelCount, positions);
    SampleIsLayout(img, gridSize, pixelCount, threshold);
  }
}
