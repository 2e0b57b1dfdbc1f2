# CleanMask in Dafny

A model of the masking algorithm of `cleanmask` (`cleanmask/CleanMask.py`).
CleanMask turns a radio image into a binary clean mask. It works in one of two
modes.

- **Peak-fraction mode.** A pixel is masked exactly when it lies above a given
  fraction of the image peak.
- **Tiled mode.** The default.
  - The image is cut into `boxes x boxes` overlapping tiles.
  - The pixels of each tile are sigma-clipped, once unsmoothed and once for
    every smoothing scale. The logical OR of these clips is kept.
  - The tile masks are written into a zero-filled mask in the order that the
    worker processes finish.
  - Pixels below zero are cleared if `--no-negatives` is given.
  - The mask is split into islands by connected-component labelling.
  - With `--dilate`, each island's window is grown by 3x3 binary dilations. The
    growth stops when the flux under the mask stops changing by at least the
    tolerance, or after `diter` passes.
  - Finally, every unmasked cell gets the configured `mask_value`.

The model follows the source's own form:
- Working masks are `array2<bool>`.
- The per-row `work` loop, `get_imslice`, `extent`, the dilation loop, assembly,
  negative suppression and finalization are methods with loop invariants.
- Bounds, centre and the peak comparison are functions.

Each method is tied to a specification function, and properties of those
functions are proved as lemmas. The modules are:

- `Grids`: grids as `seq<seq<T>>`, crops, OR, patches and the in-place write
  `mask[xi:xf, yi:yf] = cells`.
- `Tiling`: `work`, tile bounds and the multi-scale clip.
- `Assembly`: writing the tile results in completion order, and negative
  suppression.
- `Islands`: island pixels, centre, extent and crop window.
- `Dilation`: 3x3 dilation, flux, the `while make_bigger` loop, write-back and
  the loop over the islands.
- `Output`: finalization and the peak-fraction threshold.
- `CleanMask`: the body of `main` and `get_imslice`.

Some parts are parameters of the model:
- `stats.sigma_clip` is a function `Clip` from a tile and a threshold to a mask
  of the tile's shape.
- `gaussian_filter` is a function `Smooth` that keeps the tile's shape.
- `measure.label` is a `Labeler`. It must give label 0 exactly to the unset
  cells.
- The iteration order of a Python `set` is a `Picker`. It must list each
  element once.
- The completion order of the futures is a sequence `order` that holds each row
  index once.

## Model

| member | source | states |
|---|---|---|
| CleanMask.GetImSlice | cleanmask/CleanMask.py:17-24 | the tuple has `max(ndim, 0)` entries; entry `i` is `slice(None)` exactly when `i >= ndim - 2`, otherwise 0 |
| Grids.WritePatch | cleanmask/CleanMask.py:196 | `mask[xi:xf, yi:yf] = cells` in place: the cells of the rectangle take the patch's values and every other cell keeps its value; the new contents are `Paste` of the old |
| CleanMask.ImSliceKeepsTwoAxes | cleanmask/CleanMask.py:17-24 | for `ndim >= 2`, exactly the last two axes are kept whole |
| Tiling.Trunc | cleanmask/CleanMask.py:35-36 | `int()` truncates toward zero, for non-negative and for negative values |
| Tiling.Span | cleanmask/CleanMask.py:35-50 | the clipped bounds of the boxes with index `k` on one axis never start below 0 or end beyond `npix`; with `0 <= overlap` and `0 <= size`, a box whose unclipped interval already lies in `[0, npix]` keeps its truncated ends `int(k*size - overlap)` and `int(k*size + size + overlap)` |
| Tiling.Entry | cleanmask/CleanMask.py:35-61 | the entry for box `(i, j)` is tagged `i`, has the spans of `i` and `j` as its bounds, and fits the `npix x npix` mask with values of its box's shape |
| Tiling.Work | cleanmask/CleanMask.py:27-63 | `work(i, ...)` returns exactly `boxes` entries (none for a negative count), in `j` order; entry `j` is tagged with `i` and is the box `(i, j)` with its clipped bounds and combined mask |
| Tiling.MultiScale | cleanmask/CleanMask.py:53-60 | the reference definition of a tile's mask: the clip at the base sigma OR-ed with the clips of the first `n` smoothed copies, each at its paired sigma; it has the tile's shape (cell by cell in `MultiScaleCell`) |
| Tiling.BaseSigma | cleanmask/CleanMask.py:58 | the value of `sigma` when box `j` is clipped: the given `sigma` for the first box or with no scales, otherwise the last paired sigma (no contract of its own; see `BroadcastKeepsSigma` and `RebindUsesLastSigma`) |
| Tiling.ThresholdTile | cleanmask/CleanMask.py:53-60 | the mask is the clip at `sigma` OR-ed with the clip of every smoothed copy; with no scales, `sigma` and `sigmas` are unchanged; with scales, missing sigmas become `[sigma] * len(scales)` and `sigma` is left bound to the last paired sigma |
| Tiling.SpanInRange | cleanmask/CleanMask.py:35-50 | for every box index in `[0, boxes)` and every integer overlap, the clipped bounds satisfy `0 <= lo <= hi <= npix` |
| Tiling.ZeroOverlapSpan | cleanmask/CleanMask.py:35-50 | with overlap 0, box `k` runs from `int(k*size)` to `int(k*size + size)`, and the last box ends at `npix` |
| Tiling.ZeroOverlapAdjacent | cleanmask/CleanMask.py:35-50 | with overlap 0, box `k` ends exactly where box `k + 1` starts |
| Tiling.ZeroOverlapOrdered | cleanmask/CleanMask.py:35-50 | with overlap 0, box `k` ends at or before the start of every later box `k'` |
| Tiling.ZeroOverlapCovers | cleanmask/CleanMask.py:35-50 | with overlap 0, every index in `[0, npix)` lies in the span of some box |
| Tiling.EmptyBoxExample | cleanmask/CleanMask.py:35-50 | a box can be empty: with 1 pixel and 2 boxes, box 0 is `[0, 0)` |
| Tiling.MultiScaleCell | cleanmask/CleanMask.py:54-60 | a cell of the combined mask is set iff the plain clip sets it or the clip of one of the smoothed copies does |
| Tiling.NoScalesIsPlainClip | cleanmask/CleanMask.py:54-55 | with no scales, every entry's mask is the plain clip of its tile at `sigma` |
| Tiling.BroadcastKeepsSigma | cleanmask/CleanMask.py:56-58 | with no per-scale sigmas, every box is clipped at `sigma` |
| Tiling.RebindUsesLastSigma | cleanmask/CleanMask.py:58 | with per-scale sigmas of the scales' length, every box after the first clips unsmoothed at the last per-scale sigma |
| Tiling.OneBoxIsWholeImage | cleanmask/CleanMask.py:35-60 | with one box and no overlap, the single entry covers the whole image and holds the combined clip of the whole image |
| Assembly.CellAfter | cleanmask/CleanMask.py:194-196 | a cell that is set after the writes was set by some entry that covers it |
| Assembly.Assemble | cleanmask/CleanMask.py:176 | the new `npix x npix` mask has each cell equal to the value of the last written entry that covers it, or 0 |
| Assembly.UncoveredStaysZero | cleanmask/CleanMask.py:176 | a cell that no entry covers stays 0 |
| Assembly.LastWriterWins | cleanmask/CleanMask.py:194-196 | a covered cell holds the value of the last entry that covers it |
| Assembly.AgreeingWritersCommute | cleanmask/CleanMask.py:194-196 | when the covering entries agree on a cell, the cell is set iff some covering entry sets it, regardless of write order |
| Assembly.SameEntriesSameCell | cleanmask/CleanMask.py:194-196 | two write sequences with the same entries give the same cell when the covering entries agree |
| Assembly.CompletedMembers | cleanmask/CleanMask.py:194-195 | an entry is written in completion order iff it belongs to a completed row |
| Assembly.ZeroOverlapDisjoint | cleanmask/CleanMask.py:35-50 | with overlap 0, the boxes at two different grid positions share no cell |
| Assembly.ZeroOverlapCoversCell | cleanmask/CleanMask.py:35-50 | with overlap 0, every cell of `[0, npix)^2` lies in the box of some grid position `(i, j)` with `0 <= i, j < boxes` |
| Assembly.ZeroOverlapCoveredOnce | cleanmask/CleanMask.py:185-196 | with overlap 0 and every row completed, each cell of the mask is covered by exactly one written entry |
| Assembly.CoveringEntriesAgree | cleanmask/CleanMask.py:194-196 | with overlap 0, two written entries that cover one cell are the same entry |
| Assembly.ZeroOverlapOrderIndependent | cleanmask/CleanMask.py:185-196 | with overlap 0, the assembled mask is the same for any two completion orders of the same rows |
| Assembly.SuppressNegatives | cleanmask/CleanMask.py:198-199 | exactly the cells whose pixel is negative are cleared; every other cell keeps its value |
| Islands.IslandPixels | cleanmask/CleanMask.py:222 | `numpy.where(islands == label)` lists exactly the cells with that label, each once, in row-major order |
| Islands.PresentHasPixels | cleanmask/CleanMask.py:222 | a label that occurs in the image has at least one pixel |
| Islands.Centre | cleanmask/CleanMask.py:205 | for non-negative coordinates, `int()` of each mean is the integer quotient of the coordinate sum by the pixel count |
| Islands.CentreIsFloorOfMean | cleanmask/CleanMask.py:205 | the centre is the floor of the mean row and of the mean column, and lies in the image |
| Islands.TruncQuotient | cleanmask/CleanMask.py:205 | `int()` of a non-negative mean is integer division |
| Islands.ISqrt | cleanmask/CleanMask.py:214 | `int(rad ** 0.5)` is the floor square root `r`, with `r^2 <= rad < (r+1)^2` |
| Islands.RadiiMembers | cleanmask/CleanMask.py:208-214 | the list `r` holds exactly the radii of the pairs `a <= b` |
| Islands.ExtentOf | cleanmask/CleanMask.py:206-215 | the reference definition of `extent`: the maximum of the floor square roots of the pairwise squared distances (no contract of its own; see `ExtentIsFloorSqrtOfMax`) |
| Islands.Extent | cleanmask/CleanMask.py:206-215 | the nested loop returns the extent of the island's pixels |
| Islands.ExtentIsFloorSqrtOfMax | cleanmask/CleanMask.py:206-215 | the extent is at least 0 and is the floor square root of the largest pairwise squared distance: some pair reaches `e^2`, and every pair is below `(e+1)^2` |
| Islands.SinglePixelExtent | cleanmask/CleanMask.py:206-215 | a single pixel has extent 0 |
| Islands.HalfWidth | cleanmask/CleanMask.py:224 | for a non-negative extent, `int(extent * 1.5)` is `(3 * extent) / 2` |
| Islands.Bounds | cleanmask/CleanMask.py:225-236 | `c - s` raised to 0 and `c + s` lowered to `npix` (no contract of its own; see `IslandBoxInRange`) |
| Islands.IslandBox | cleanmask/CleanMask.py:222-236 | the reference definition of an island's window: `Bounds` around the centre with half-width `HalfWidth(ExtentOf(px))` on each axis (no contract of its own; see `IslandBoxInRange`) |
| Islands.IslandBoxInRange | cleanmask/CleanMask.py:223-236 | the window is `[c - s, c + s)` on each axis with `s = (3 * extent) / 2`, clipped so that `0 <= lo <= hi <= npix` |
| Islands.SinglePixelEmptyWindow | cleanmask/CleanMask.py:223-236 | a single-pixel island has an empty window, so nothing is written for it |
| Islands.PixelsInImage | cleanmask/CleanMask.py:222 | the pixels of an island lie in the image |
| Dilation.Dilate | cleanmask/CleanMask.py:244-246 | one 3x3 dilation keeps the grid's shape; its cells are given by `DilateCell` |
| Dilation.DilateCell | cleanmask/CleanMask.py:244-246 | a dilated cell is set iff some cell of its 3x3 neighbourhood inside the grid is set |
| Dilation.DilateNeighbourhood | cleanmask/CleanMask.py:244-246 | a dilated cell is set iff some set cell lies at Chebyshev distance at most 1; outside the grid counts as 0 |
| Dilation.DilateIsExtensive | cleanmask/CleanMask.py:246 | a dilation has the crop's shape and contains the crop |
| Dilation.DilateChain | cleanmask/CleanMask.py:246-259 | successive dilations form an increasing chain |
| Dilation.Flux | cleanmask/CleanMask.py:242 | `(iim * imask).sum()`, the image summed over the set cells of the crop; also used for `f1` at :249 (no contract of its own; see `EmptyMaskNoFlux`) |
| Dilation.EmptyMaskNoFlux | cleanmask/CleanMask.py:242 | a crop with no set cell has zero flux, whatever the image |
| Dilation.GrowsAt | cleanmask/CleanMask.py:249-255 | pass `t` keeps `make_bigger` true iff `df = abs(f0 - f1)/f0` is at least the tolerance and positive, and `t <= diter` |
| Dilation.GrowsBelowAll | cleanmask/CleanMask.py:248-259 | the recursive record of the growing passes is the same as "every pass `1 <= t < n` grew" |
| Dilation.Pass | cleanmask/CleanMask.py:249-259 | one pass of the loop keeps going iff the pass grows, and dilates once more exactly then |
| Dilation.Grow | cleanmask/CleanMask.py:243-259 | the loop terminates. When `f0 <= 0` it does not run, and `nmask` is one dilation. Otherwise it runs `1 <= counter <= max(1, diter + 1)` passes, every pass but the last grew, the last did not, and `nmask` is `counter` dilations of the crop |
| Dilation.Regrow | cleanmask/CleanMask.py:238-260 | `mask[imslice] = nmask`: the mask with the window replaced by its crop dilated `n` times; it keeps the mask's shape (frame and growth in `RegrowKeeps`) |
| Dilation.RegrowKeeps | cleanmask/CleanMask.py:260 | writing the dilated crop back clears no cell and changes no cell outside the window |
| Dilation.FirstStop | cleanmask/CleanMask.py:248-259 | the first pass from `t` on that does not keep growing: every pass before it grows and it does not |
| Dilation.StopCount | cleanmask/CleanMask.py:243-259 | the final `counter` of the loop: 0 when `f0 <= 0`, otherwise `FirstStop` from pass 1 (no contract of its own; see `StopsExactly`) |
| Dilation.StopsExactly | cleanmask/CleanMask.py:243-259 | the stopping rule holds for exactly one `counter`, `StopCount`: no passes when `f0 <= 0`, otherwise the first pass that stops growing |
| Dilation.DilateIsland | cleanmask/CleanMask.py:239-260 | `f0` is the flux of the crop; the loop stops by the rule above, and the new mask is the old one with the window replaced by the crop dilated that many times |
| Dilation.WindowOf | cleanmask/CleanMask.py:222-236 | the window `IslandBox` of the pixels of a label that occurs in the label image (no contract of its own; see `WindowInImage`) |
| Dilation.WindowInImage | cleanmask/CleanMask.py:222-236 | the window of a label that occurs in a square label image lies in the image |
| Dilation.IslandStep | cleanmask/CleanMask.py:222-260 | the reference definition of one island's loop body: the mask with the island's window replaced by its crop dilated `Dilations(f0, StopCount)` times, where `f0` is read from the current mask; it keeps the mask's shape |
| Dilation.IslandStepKeeps | cleanmask/CleanMask.py:260 | one island step clears no cell and changes no cell outside the island's window |
| Dilation.DilateFold | cleanmask/CleanMask.py:219-260 | the reference definition of the loop over the islands: the island steps in iteration order, each on the mask left by the ones before; it keeps the mask's shape |
| Dilation.FoldStep | cleanmask/CleanMask.py:219-260 | the loop over one more island is one more island step on the mask so far |
| Dilation.DilateFoldGrows | cleanmask/CleanMask.py:219-260 | the loop over the islands clears no cell |
| Dilation.DilateFoldFrame | cleanmask/CleanMask.py:219-260 | a cell outside every island's window keeps its value through the loop over the islands |
| Dilation.IslandWindow | cleanmask/CleanMask.py:222-236 | the window computed from the island's pixels, centre and extent lies in the image |
| Dilation.DilateOne | cleanmask/CleanMask.py:222-260 | the loop body for one island returns its window and leaves the mask equal to `IslandStep` of the old mask: the window regrown exactly as many times as the growth loop decides |
| Dilation.DilateAll | cleanmask/CleanMask.py:219-260 | over the islands in set-iteration order, the new mask is exactly `DilateFold` of the old one |
| Output.Finalize | cleanmask/CleanMask.py:262 | exactly the unset cells become `mask_value`, and every set cell stays 1, so the output holds only those two values |
| Output.Peak | cleanmask/CleanMask.py:146 | `im.max()` is an entry of the image that no entry exceeds |
| Output.PeakMask | cleanmask/CleanMask.py:147-148 | a cell is 1 iff its pixel is above `peak * pf`; otherwise it is `mask_value` |
| Output.NoCellAboveFullPeak | cleanmask/CleanMask.py:147 | with `peak >= 0` and `pf >= 1`, no cell is 1 |
| Output.PeakPixelMasked | cleanmask/CleanMask.py:147 | with `peak > 0` and `pf < 1`, some cell is 1 |
| Output.PeakMaskShrinks | cleanmask/CleanMask.py:147 | with `peak >= 0`, raising `pf` never adds a masked cell |
| Output.HalfPeakScenario | cleanmask/CleanMask.py:145-148 | with peak 100 and `pf = 0.5`, 60 is masked and 40 gets `mask_value` |
| CleanMask.Config | cleanmask/CleanMask.py:159-160 | `size = npix / boxes`, carried with `boxes` and `npix` |
| CleanMask.WorkAll | cleanmask/CleanMask.py:185-191 | row `i` of the results is `work(i, ...)`, for every `i` in `[0, boxes)` |
| CleanMask.CompletedFits | cleanmask/CleanMask.py:194-196 | every entry, in any completion order, fits the mask |
| CleanMask.AssembleTiles | cleanmask/CleanMask.py:176-199 | the mask before labelling is the assembled tiles, with negative pixels cleared under `--no-negatives` |
| CleanMask.PreMask | cleanmask/CleanMask.py:176-199 | the reference definition of the mask before labelling: each cell is the last covering tile's value or 0, cleared where the pixel is negative under `--no-negatives`; it is `npix x npix` |
| CleanMask.LabelSetPresent | cleanmask/CleanMask.py:202 | `set(islands.flatten())` holds exactly the labels that occur |
| CleanMask.BackgroundLabel | cleanmask/CleanMask.py:201-203 | label 0 is in the set iff some mask cell is unset, so `labels.remove(0)` fails exactly on a full mask |
| CleanMask.PickedPresent | cleanmask/CleanMask.py:219-222 | every island visited has at least one pixel in the label image |
| CleanMask.DilatedMask | cleanmask/CleanMask.py:201-260 | the mask that `--dilate` makes of `m`: `DilateFold` over the nonzero labels of `m`'s labelling in set order; it keeps the mask's shape |
| CleanMask.Written | cleanmask/CleanMask.py:217-262 | the reference definition of the output: a cell is 1 exactly when it is set in `pre`, or, with `--dilate`, in `DilatedMask` of `pre` (no contract of its own; see `DilatedOutputBounds` and `LabelAndDilate`) |
| CleanMask.DilateIslands | cleanmask/CleanMask.py:217-260 | with `--dilate`, the new mask is exactly `DilatedMask` of the old one |
| CleanMask.DilatedOutputBounds | cleanmask/CleanMask.py:217-262 | with `--dilate`, the output marks every cell of the mask before dilation, and agrees with it outside every island window |
| CleanMask.LabelAndDilate | cleanmask/CleanMask.py:201-262 | fails with `NoBackground` iff the mask has no unset cell. Otherwise a cell of the output is 1 exactly when it is set in the mask, without `--dilate`, or in `DilatedMask` of the mask, with it; every other cell is `mask_value`. The bool mask itself ends as `DilatedMask` of the old mask on success with `--dilate`, and unchanged otherwise |
| CleanMask.WrittenFrom | cleanmask/CleanMask.py:217-262 | finalizing the mask after the optional dilation gives exactly the output described for `LabelAndDilate` |
| CleanMask.PeakFraction | cleanmask/CleanMask.py:145-148 | the peak-fraction output is `PeakMask` cell by cell |
| CleanMask.Tiled | cleanmask/CleanMask.py:159-262 | each error happens exactly under its condition: `boxes == 0`, then the scale/sigma length mismatch, then a full mask. Otherwise the output marks exactly the cells of the assembled mask, dilated with `--dilate` |
| CleanMask.Run | cleanmask/CleanMask.py:145-262 | the two modes. In peak mode, an empty image fails, and otherwise the output is `PeakMask`. In tiled mode, the errors and the exact output are as for `Tiled` |

## Left out

- File I/O: the FITS read and write, header access and reshaping. `main`
  starts from the 2-D image `im` and its size `npix`, and returns the output
  array.
- The command line is not modelled: argument parsing, the rewrite of negative
  numbers in `argv`, logging, and the `pkg_resources` version lookup. The
  options the algorithm reads form the `Options` datatype.
- `mask_value` decoding: the source refers to `unicode`, which is not defined
  in Python 3. The fill value is the abstract `Fill` of `Output.Cell`.
- `stats.sigma_clip` and `gaussian_filter` are floating-point library code.
  They are the parameters `Clip` and `Smooth`, and only their shapes are
  constrained. `maxiters=iters` at :54 and `iters=iters` at :60 are folded into
  `Clip`.
- `measure.label` is the `Labeler` parameter. The model constrains which label
  is 0, but not connectivity.
- `ProcessPoolExecutor`, `as_completed` and Python's set iteration order are
  arbitrary orders, the `order` and `Picker` parameters.
- Floating-point rounding is not modelled. `npix / boxes`, the means and the
  flux sums are exact reals. `int()` is `Trunc`, and `rad ** 0.5` is an integer
  floor square root.
- Pixels are finite reals; NaN and infinity are not modelled. With a NaN pixel, `im.max()` (:146) is NaN and peak mode gives every cell `mask_value`, and a NaN `f0` stops growth at once.
- `ProcessPoolExecutor(args.ncpu)` (:178) raises for `ncpu <= 0` before the scale/sigma check at :181. `ncpu` is taken to be valid, which is the case where the error conditions of `CleanMask.Tiled` and `CleanMask.Run` are exact.
- The library behaviour at :60 (`sigma_clip` called with `iters=`) and at :238-240 (a list of slices used as an index) is taken as the code's authors intended: one clip per pair, and a 2-D crop. Current releases of astropy and numpy may reject both calls.
- The image is taken to be square (`npix x npix`), as the source assumes when
  it clips both axes to `npix`.
- `Output.Finalize` writes a new array of `Cell` rather than overwriting the
  float32 mask in place. This is because the fill value is not a boolean.
- `CleanMask.GetImSlice` returns a sequence of `Zero`/`All` rather than a tuple
  of `0`/`slice(None)`.
- Behaviour of the code a reader might not expect, which the model follows:
  - When an island's `f0 <= 0`, the crop is still replaced by one dilation
    (:246, :260).
  - Tile bounds can be empty when there are fewer pixels than boxes
    (`Tiling.EmptyBoxExample`).
  - `labels.remove(0)` runs even without `--dilate`, so a mask with no unset
    cell stops the run (`Error.NoBackground`).
  - A peak fraction of 0 selects the tiled pipeline.
