/** Tile planning and the per-row thresholding of `work`: the bounds of box
    `(i, j)`, the sigma-clip of its tile, the OR with the clip of each
    smoothed copy of the tile, and the rebinding of `sigma` by the loop over
    the scales. */
module Tiling {
  import opened Grids

  /** `stats.sigma_clip(tile, sigma=s, maxiters=iters).mask`: the outlier mask
      of a tile. The iteration count is the same for every call of a run and is
      part of the function. */
  type Clip = (Grid<real>, real) -> Grid<bool>

  /** `gaussian_filter(tile, [scale, scale])`. */
  type Smooth = (Grid<real>, int) -> Grid<real>

  /** A clip returns a mask of its tile's shape. */
  ghost predicate ClipKeepsShape(clip: Clip)
  {
    forall t, s :: SameShape(clip(t, s), t)
  }

  /** Smoothing returns a grid of its tile's shape. */
  ghost predicate SmoothKeepsShape(smooth: Smooth)
  {
    forall t, k :: SameShape(smooth(t, k), t)
  }

  lemma ClipShape(clip: Clip, t: Grid<real>, s: real)
    requires ClipKeepsShape(clip)
    ensures SameShape(clip(t, s), t)
  {
  }

  lemma SmoothedClipShape(clip: Clip, smooth: Smooth, t: Grid<real>, k: int, s: real)
    requires ClipKeepsShape(clip) && SmoothKeepsShape(smooth)
    ensures SameShape(smooth(t, k), t)
    ensures SameShape(clip(smooth(t, k), s), t)
  {
  }

  /** Python's `int()` of a real: truncation toward zero. */
  function Trunc(v: real): (r: int)
    ensures 0.0 <= v ==> r as real <= v < r as real + 1.0
    ensures v < 0.0 ==> r as real - 1.0 < v <= r as real
  {
    if v >= 0.0 then v.Floor else -((-v).Floor)
  }

  /** The arguments `work` receives besides the row index, the image and the
      two library calls: `boxes`, `size = npix / boxes`, the overlap in
      pixels, `npix`, `sigma`, `scales` and `sigmas` (an empty list stands
      for both `None` and `[]`, which `work` treats alike). */
  datatype TileConfig = TileConfig(
    boxes: int, size: real, overlap: int, npix: nat,
    sigma: real, scales: seq<int>, sigmas: seq<real>)

  /** The bounds along one axis of the boxes with index `k` on that axis:
      `k*size - overlap` and `k*size + size + overlap`, each truncated by
      `int`, put in order, then the lower end raised to 0 and the upper end
      lowered to `npix`. */
  function Span(k: int, size: real, overlap: int, npix: int): (r: (int, int))
    ensures 0 <= r.0 && r.1 <= npix
    ensures 0 <= overlap && 0.0 <= size && 0.0 <= Start(k, size) - overlap as real
            && Start(k, size) + size + overlap as real <= npix as real ==>
      r == (Trunc(Start(k, size) - overlap as real), Trunc(Start(k, size) + size + overlap as real))
  {
    var a := Trunc(Start(k, size) - overlap as real);
    var b := Trunc(Start(k, size) + size + overlap as real);
    var lo, hi := if a <= b then a else b, if a <= b then b else a;
    (if lo < 0 then 0 else lo, if hi > npix then npix else hi)
  }

  /** The nominal start `k * size` of the boxes with index `k` on an axis. */
  function Start(k: int, size: real): real
  {
    k as real * size
  }

  /** The per-scale thresholds: `[sigma] * len(scales)` when none were given. */
  function ScaleSigmas(sigma: real, scales: seq<int>, sigmas: seq<real>): seq<real>
  {
    if |sigmas| == 0 then seq(|scales|, _ => sigma) else sigmas
  }

  /** How many (scale, sigma) pairs `zip` produces; 0 when there are no scales. */
  function Pairs(c: TileConfig): (n: nat)
    ensures n <= |c.scales| && n <= |ScaleSigmas(c.sigma, c.scales, c.sigmas)|
    ensures |c.scales| > 0 ==> n > 0
  {
    var s := ScaleSigmas(c.sigma, c.scales, c.sigmas);
    if |c.scales| <= |s| then |c.scales| else |s|
  }

  /** The value `sigma` holds when box `j` of a row is clipped. The loop over
      the scales rebinds it, so every box after the first clips with the
      threshold of the last (scale, sigma) pair. */
  function BaseSigma(j: int, c: TileConfig): real
  {
    if j == 0 || |c.scales| == 0 then c.sigma
    else ScaleSigmas(c.sigma, c.scales, c.sigmas)[Pairs(c) - 1]
  }

  /** The clip of a tile at `base`, OR-ed with the clips of its first `n`
      smoothed copies, each at its own threshold. */
  function MultiScale(clip: Clip, smooth: Smooth, tile: Grid<real>, base: real,
                      scales: seq<int>, sigmas: seq<real>, n: nat): (m: Grid<bool>)
    requires ClipKeepsShape(clip) && SmoothKeepsShape(smooth)
    requires n <= |scales| && n <= |sigmas|
    ensures SameShape(m, tile)
  {
    if n == 0 then ClipShape(clip, tile, base); clip(tile, base)
    else
      var prev := MultiScale(clip, smooth, tile, base, scales, sigmas, n - 1);
      SmoothedClipShape(clip, smooth, tile, scales[n - 1], sigmas[n - 1]);
      Or(prev, clip(smooth(tile, scales[n - 1]), sigmas[n - 1]))
  }

  /** One entry of a `work` result: the row index, the box's clipped bounds
      and its combined mask. */
  datatype TileResult = TileResult(row: int, patch: Patch)

  /** The entry `work(i, ...)` produces for box `(i, j)`. */
  function Entry(i: int, j: int, c: TileConfig, im: Grid<real>, clip: Clip, smooth: Smooth): (r: TileResult)
    requires IsRect(im, c.npix, c.npix)
    requires ClipKeepsShape(clip) && SmoothKeepsShape(smooth)
    ensures r.row == i
    ensures (r.patch.xi, r.patch.xf) == Span(i, c.size, c.overlap, c.npix)
    ensures (r.patch.yi, r.patch.yf) == Span(j, c.size, c.overlap, c.npix)
    ensures Fits(r.patch, c.npix, c.npix)
  {
    var (xi, xf) := Span(i, c.size, c.overlap, c.npix);
    var (yi, yf) := Span(j, c.size, c.overlap, c.npix);
    var tile := Crop(im, xi, xf, yi, yf);
    var mask := MultiScale(clip, smooth, tile, BaseSigma(j, c), c.scales,
                           ScaleSigmas(c.sigma, c.scales, c.sigmas), Pairs(c));
    TileResult(i, Patch(xi, xf, yi, yf, mask))
  }

  /** `work`: one entry per box of row `i`, in `j` order, each tagged with
      `i`, with the box's bounds and its clip OR-ed with the clips of the
      smoothed copies. */
  method Work(i: int, c: TileConfig, im: Grid<real>, clip: Clip, smooth: Smooth)
    returns (slices: seq<TileResult>)
    requires IsRect(im, c.npix, c.npix)
    requires ClipKeepsShape(clip) && SmoothKeepsShape(smooth)
    ensures |slices| == if c.boxes < 0 then 0 else c.boxes
    ensures forall j :: 0 <= j < |slices| ==> slices[j].row == i
    ensures forall j :: 0 <= j < |slices| ==> slices[j] == Entry(i, j, c, im, clip, smooth)
  {
    slices := [];
    var sigma, sigmas := c.sigma, c.sigmas;
    var j := 0;
    while j < c.boxes
      invariant 0 <= j && (j <= c.boxes || j == 0)
      invariant |slices| == j
      invariant forall j' :: 0 <= j' < j ==> slices[j'] == Entry(i, j', c, im, clip, smooth)
      invariant sigma == BaseSigma(j, c)
      invariant if j > 0 && |c.scales| > 0 then sigmas == ScaleSigmas(c.sigma, c.scales, c.sigmas)
                else sigmas == c.sigmas
    {
      var (xi, xf) := Span(i, c.size, c.overlap, c.npix);
      var (yi, yf) := Span(j, c.size, c.overlap, c.npix);
      var tile := Crop(im, xi, xf, yi, yf);
      var mask;
      mask, sigma, sigmas := ThresholdTile(clip, smooth, tile, sigma, c.scales, sigmas);
      var entry := TileResult(i, Patch(xi, xf, yi, yf, mask));
      assert entry == Entry(i, j, c, im, clip, smooth);
      AppendEntry(slices, entry, i, j, c, im, clip, smooth);
      slices := slices + [entry];
      j := j + 1;
    }
  }

  /** Appending the entry of box `j` to the entries of boxes `0..j-1`. */
  lemma AppendEntry(slices: seq<TileResult>, entry: TileResult, i: int, j: nat, c: TileConfig, im: Grid<real>,
                    clip: Clip, smooth: Smooth)
    requires IsRect(im, c.npix, c.npix)
    requires ClipKeepsShape(clip) && SmoothKeepsShape(smooth)
    requires |slices| == j && forall j' :: 0 <= j' < j ==> slices[j'] == Entry(i, j', c, im, clip, smooth)
    requires entry == Entry(i, j, c, im, clip, smooth)
    ensures forall j' :: 0 <= j' < j + 1 ==> (slices + [entry])[j'] == Entry(i, j', c, im, clip, smooth)
  {
    forall j' | 0 <= j' < j + 1 ensures (slices + [entry])[j'] == Entry(i, j', c, im, clip, smooth) {
      if j' < j {
        assert (slices + [entry])[j'] == slices[j'];
      }
    }
  }

  /** The body of `work`'s loop for one tile: the clip at `sigma`, then, when
      there are scales, the broadcast of `sigma` if no per-scale sigmas were
      given and the OR with the clip of each smoothed copy, which leaves
      `sigma` bound to the threshold of the last pair. */
  method ThresholdTile(clip: Clip, smooth: Smooth, tile: Grid<real>, sigma: real,
                       scales: seq<int>, sigmas: seq<real>)
    returns (mask: Grid<bool>, sigma': real, sigmas': seq<real>)
    requires ClipKeepsShape(clip) && SmoothKeepsShape(smooth)
    ensures |scales| == 0 ==> sigma' == sigma && sigmas' == sigmas && mask == clip(tile, sigma)
    ensures |scales| > 0 ==> sigmas' == ScaleSigmas(sigma, scales, sigmas) && |sigmas'| > 0
    ensures |scales| > 0 ==>
      var n := if |scales| <= |sigmas'| then |scales| else |sigmas'|;
      sigma' == sigmas'[n - 1] && mask == MultiScale(clip, smooth, tile, sigma, scales, sigmas', n)
  {
    sigma', sigmas' := sigma, sigmas;
    mask := clip(tile, sigma);
    if |scales| > 0 {
      if |sigmas'| == 0 {
        sigmas' := seq(|scales|, _ => sigma);
      }
      var k := 0;
      while k < |scales| && k < |sigmas'|
        invariant 0 <= k <= |scales| && k <= |sigmas'|
        invariant mask == MultiScale(clip, smooth, tile, sigma, scales, sigmas', k)
        invariant sigma' == if k == 0 then sigma else sigmas'[k - 1]
      {
        sigma' := sigmas'[k];
        var smoothed := smooth(tile, scales[k]);
        SmoothedClipShape(clip, smooth, tile, scales[k], sigma');
        mask := Or(mask, clip(smoothed, sigma'));
        k := k + 1;
      }
    }
  }

  // ---------------------------------------------------------------------
  // Properties of the box bounds

  /** For every box index in `[0, boxes)` and every integer overlap (negative
      ones included), the clipped bounds satisfy `0 <= lo <= hi <= npix`. */
  lemma SpanInRange(k: int, boxes: int, overlap: int, npix: nat, size: real)
    requires 0 <= k < boxes && size == npix as real / boxes as real
    ensures 0 <= Span(k, size, overlap, npix).0 <= Span(k, size, overlap, npix).1 <= npix
  {
    BoxOffset(k, boxes, npix, size);
    SpanBounds(k, size, overlap, npix);
  }

  /** The clipped bounds of a box that starts at `k * size >= 0` and ends by
      `npix` lie in order inside `[0, npix]`. */
  lemma SpanBounds(k: int, size: real, overlap: int, npix: int)
    requires 0.0 <= size && 0.0 <= Start(k, size) && Start(k, size) + size <= npix as real
    ensures 0 <= Span(k, size, overlap, npix).0 <= Span(k, size, overlap, npix).1 <= npix
  {
    EndsInRange(Start(k, size), size, overlap as real, npix);
  }

  /** Two ends `start - ov` and `start + size + ov` with `0 <= start` and
      `start + size <= npix`: after truncation not both exceed `npix` (their
      sum is at most `2 * npix`) and not both are negative (their sum is at
      least 0). */
  lemma EndsInRange(start: real, size: real, ov: real, npix: int)
    requires 0.0 <= start && 0.0 <= size && start + size <= npix as real
    ensures Trunc(start - ov) <= npix || Trunc(start + size + ov) <= npix
    ensures 0 <= Trunc(start - ov) || 0 <= Trunc(start + size + ov)
  {
  }

  /** Box `k` starts at `k * size >= 0` and ends by `npix`. */
  lemma BoxOffset(k: int, boxes: int, npix: nat, size: real)
    requires 0 <= k < boxes && size == npix as real / boxes as real
    ensures 0.0 <= size
    ensures 0.0 <= Start(k, size)
    ensures Start(k, size) + size <= npix as real
    ensures k + 1 == boxes ==> Start(k, size) + size == npix as real
  {
    assert size * boxes as real == npix as real;
    var rest := (boxes - 1 - k) as real;
    assert 0.0 <= rest * size;
    assert rest * size + Start(k, size) + size == boxes as real * size;
  }

  /** `k * size` grows with `k` for a non-negative size. */
  lemma StartsIncrease(k: int, k': int, size: real)
    requires k <= k' && 0.0 <= size
    ensures Start(k, size) <= Start(k', size)
  {
    assert Start(k', size) - Start(k, size) == (k' - k) as real * size;
  }

  /** Python's `int()` is monotone on non-negative reals. */
  lemma TruncMonotone(v: real, w: real)
    requires 0.0 <= v <= w
    ensures Trunc(v) <= Trunc(w)
  {
  }

  /** With no overlap, box `k` runs from `int(k*size)` to `int(k*size + size)`,
      and both ends lie in `[0, npix]`. */
  lemma ZeroOverlapSpan(k: int, boxes: int, npix: nat, size: real)
    requires 0 <= k < boxes && size == npix as real / boxes as real
    ensures Span(k, size, 0, npix).0 == Trunc(Start(k, size))
    ensures Span(k, size, 0, npix).1 == Trunc(Start(k, size) + size)
    ensures 0 <= Span(k, size, 0, npix).0 <= Span(k, size, 0, npix).1 <= npix
    ensures k + 1 == boxes ==> Span(k, size, 0, npix).1 == npix
  {
    BoxOffset(k, boxes, npix, size);
    ZeroSpanBounds(Start(k, size), k, size, npix);
  }

  lemma ZeroSpanBounds(start: real, k: int, size: real, npix: int)
    requires start == Start(k, size)
    requires 0.0 <= size && 0.0 <= start && start + size <= npix as real
    ensures Span(k, size, 0, npix).0 == Trunc(start)
    ensures Span(k, size, 0, npix).1 == Trunc(start + size)
    ensures 0 <= Trunc(start) <= Trunc(start + size) <= npix
  {
    TruncMonotone(start, start + size);
    TruncMonotone(start + size, npix as real);
    assert start - 0 as real == start && start + size + 0 as real == start + size;
  }

  /** With no overlap, box `k` ends where box `k + 1` begins. */
  lemma ZeroOverlapAdjacent(k: int, boxes: int, npix: nat, size: real)
    requires 0 <= k && k + 1 < boxes && size == npix as real / boxes as real
    ensures Span(k, size, 0, npix).1 == Span(k + 1, size, 0, npix).0
  {
    ZeroOverlapSpan(k, boxes, npix, size);
    ZeroOverlapSpan(k + 1, boxes, npix, size);
    Distrib(k, size);
  }

  lemma Distrib(k: int, size: real)
    ensures Start(k + 1, size) == Start(k, size) + size
  {
  }

  /** With no overlap, the boxes along one axis come in order: box `k` ends
      no later than any later box begins. */
  lemma ZeroOverlapOrdered(k: int, k': int, boxes: int, npix: nat, size: real)
    requires 0 <= k < k' < boxes && size == npix as real / boxes as real
    ensures Span(k, size, 0, npix).1 <= Span(k', size, 0, npix).0
  {
    ZeroOverlapSpan(k, boxes, npix, size);
    ZeroOverlapSpan(k', boxes, npix, size);
    BoxOffset(k, boxes, npix, size);
    Distrib(k, size);
    StartsIncrease(k + 1, k', size);
    TruncMonotone(Start(k, size) + size, Start(k', size));
  }

  /** Index `v` lies in the span of the boxes with index `k`, for no overlap. */
  predicate InSpan(v: int, k: int, size: real, npix: int)
  {
    Span(k, size, 0, npix).0 <= v < Span(k, size, 0, npix).1
  }

  /** With no overlap, every index in `[0, npix)` lies in the span of some
      box at or after `k`, given that it is not before box `k`'s start. */
  lemma {:induction false} ZeroOverlapCoversFrom(v: int, k: int, boxes: int, npix: nat, size: real)
    requires 0 <= k < boxes && v < npix && size == npix as real / boxes as real
    requires Span(k, size, 0, npix).0 <= v
    ensures exists k' :: k <= k' < boxes && InSpan(v, k', size, npix)
    decreases boxes - k
  {
    ZeroOverlapSpan(k, boxes, npix, size);
    if v < Span(k, size, 0, npix).1 {
      assert InSpan(v, k, size, npix);
    } else {
      ZeroOverlapAdjacent(k, boxes, npix, size);
      ZeroOverlapCoversFrom(v, k + 1, boxes, npix, size);
    }
  }

  /** With no overlap, the spans of the boxes cover `[0, npix)`. */
  lemma ZeroOverlapCovers(v: int, boxes: int, npix: nat, size: real)
    requires 0 < boxes && 0 <= v < npix && size == npix as real / boxes as real
    ensures exists k :: 0 <= k < boxes && InSpan(v, k, size, npix)
  {
    ZeroOverlapSpan(0, boxes, npix, size);
    ZeroOverlapCoversFrom(v, 0, boxes, npix, size);
  }

  /** The bounds need not be non-empty: with fewer pixels than boxes, a box
      can select no pixel at all (`npix = 1`, `boxes = 2`, box 0 is `[0, 0)`). */
  lemma EmptyBoxExample()
    ensures Span(0, 1 as real / 2 as real, 0, 1) == (0, 0)
  {
  }

  // ---------------------------------------------------------------------
  // Properties of the thresholding

  /** A cell of the combined mask is set iff the plain clip sets it or the
      clip of one of the first `n` smoothed copies does. */
  lemma {:induction false} MultiScaleCell(clip: Clip, smooth: Smooth, tile: Grid<real>, base: real,
                                          scales: seq<int>, sigmas: seq<real>, n: nat, x: int, y: int)
    requires ClipKeepsShape(clip) && SmoothKeepsShape(smooth)
    requires n <= |scales| && n <= |sigmas|
    requires 0 <= x < |tile| && 0 <= y < |tile[x]|
    ensures SameShape(clip(tile, base), tile)
    ensures forall k :: 0 <= k < n ==> SameShape(clip(smooth(tile, scales[k]), sigmas[k]), tile)
    ensures MultiScale(clip, smooth, tile, base, scales, sigmas, n)[x][y]
        <==> (At(clip(tile, base), x, y)
              || exists k :: 0 <= k < n && At(clip(smooth(tile, scales[k]), sigmas[k]), x, y))
  {
    ClipShape(clip, tile, base);
    forall k | 0 <= k < n
      ensures SameShape(clip(smooth(tile, scales[k]), sigmas[k]), tile)
    {
      SmoothedClipShape(clip, smooth, tile, scales[k], sigmas[k]);
    }
    if n > 0 {
      MultiScaleCell(clip, smooth, tile, base, scales, sigmas, n - 1, x, y);
    }
  }

  /** Without smoothing scales the combined mask is the plain clip at `sigma`,
      for every box of the row. */
  lemma NoScalesIsPlainClip(i: int, j: int, c: TileConfig, im: Grid<real>, clip: Clip, smooth: Smooth)
    requires IsRect(im, c.npix, c.npix)
    requires ClipKeepsShape(clip) && SmoothKeepsShape(smooth)
    requires |c.scales| == 0
    ensures var p := Entry(i, j, c, im, clip, smooth).patch;
            p.cells == clip(Crop(im, p.xi, p.xf, p.yi, p.yf), c.sigma)
  {
  }

  /** Without per-scale sigmas the rebinding of `sigma` is harmless: the
      broadcast list repeats `sigma`, so every box clips at `sigma`. */
  lemma BroadcastKeepsSigma(j: int, c: TileConfig)
    requires |c.sigmas| == 0
    ensures BaseSigma(j, c) == c.sigma
  {
  }

  /** With scales and per-scale sigmas of one length (what `main` admits),
      every box after the first of a row clips at the last per-scale sigma
      rather than at `sigma`. */
  lemma RebindUsesLastSigma(j: int, c: TileConfig)
    requires |c.scales| > 0 && |c.sigmas| == |c.scales| && j > 0
    ensures BaseSigma(j, c) == c.sigmas[|c.sigmas| - 1]
  {
  }

  /** With a single box and no overlap the one entry covers the whole image
      and holds the threshold of the whole image. */
  lemma OneBoxIsWholeImage(c: TileConfig, im: Grid<real>, clip: Clip, smooth: Smooth)
    requires IsRect(im, c.npix, c.npix)
    requires ClipKeepsShape(clip) && SmoothKeepsShape(smooth)
    requires c.boxes == 1 && c.overlap == 0 && c.size == c.npix as real / c.boxes as real
    ensures var p := Entry(0, 0, c, im, clip, smooth).patch;
            p.xi == 0 && p.xf == c.npix && p.yi == 0 && p.yf == c.npix
            && p.cells == MultiScale(clip, smooth, im, c.sigma, c.scales,
                                     ScaleSigmas(c.sigma, c.scales, c.sigmas), Pairs(c))
  {
    ZeroOverlapSpan(0, 1, c.npix, c.size);
    CropWhole(im, c.npix);
  }
}
