/** The algorithmic body of `main`: the peak-fraction mode, or the tiled
    pipeline (tile planning, `work` for every row, assembly in completion
    order, negative suppression, labelling, the removal of the background
    label, optional dilation of every island) followed by finalization; and
    `get_imslice`. */
module CleanMask {
  import opened Grids
  import opened Tiling
  import opened Assembly
  import opened Islands
  import opened Dilation
  import opened Output

  /** One entry of the index tuple `get_imslice` builds: `0` or `slice(None)`. */
  datatype Index = Zero | All

  /** `get_imslice(ndim)`: index 0 on every leading axis and the whole of the
      last two axes. */
  method GetImSlice(ndim: int) returns (s: seq<Index>)
    ensures |s| == MaxInt(ndim, 0)
    ensures forall i :: 0 <= i < |s| ==> (s[i] == All <==> i >= ndim - 2)
    ensures forall i :: 0 <= i < |s| ==> (s[i] == Zero <==> i < ndim - 2)
  {
    s := [];
    for i := 0 to MaxInt(ndim, 0)
      invariant |s| == i
      invariant forall i' :: 0 <= i' < i ==> s[i'] == if i' < ndim - 2 then Zero else All
    {
      if i < ndim - 2 {
        s := s + [Zero];
      } else {
        s := s + [All];
      }
    }
  }

  /** For an image with at least two axes the slice keeps exactly the last two. */
  lemma ImSliceKeepsTwoAxes(ndim: int, s: seq<Index>)
    requires 2 <= ndim && |s| == ndim
    requires forall i :: 0 <= i < |s| ==> (s[i] == All <==> i >= ndim - 2)
    ensures s[ndim - 2] == All && s[ndim - 1] == All
    ensures forall i :: 0 <= i < ndim - 2 ==> s[i] != All
  {
  }

  datatype Option<T> = None | Some(value: T)

  /** The command-line options the algorithm reads. `iters` is part of the
      clip function; an empty `scales` stands for `None` and an empty
      `sigmas` for `None` and `[]`. */
  datatype Options = Options(
    sigma: real, boxes: int, overlap: real, scales: seq<int>, sigmas: seq<real>,
    noNegatives: bool, dilate: bool, tolerance: real, diter: int,
    peakFraction: Option<real>)

  /** What stops a run before any mask is written. */
  datatype Error =
    | EmptyImage          // `im.max()` of an empty image
    | DivisionByZero      // `npix / args.boxes` with no boxes
    | ScaleSigmaMismatch  // the `RuntimeError` for scales and sigmas of different lengths
    | NoBackground        // `labels.remove(0)` when no cell of the mask is 0

  datatype Result<T> = Ok(value: T) | Err(error: Error)

  /** `measure.label(mask, background=0)`. */
  type Labeler = Grid<bool> -> Grid<int>

  /** The labelling has the mask's shape and gives label 0 exactly to the
      unset cells, so the nonzero labels partition the set cells. */
  ghost predicate LabelsIslands(labeler: Labeler)
  {
    forall m :: SameShape(labeler(m), m) &&
      forall x, y :: 0 <= x < |m| && 0 <= y < |m[x]| ==> (labeler(m)[x][y] == 0 <==> !m[x][y])
  }

  lemma LabelOf(labeler: Labeler, m: Grid<bool>)
    requires LabelsIslands(labeler)
    ensures SameShape(labeler(m), m)
    ensures forall x, y :: 0 <= x < |m| && 0 <= y < |m[x]| ==> (labeler(m)[x][y] == 0 <==> !m[x][y])
  {
  }

  /** The order in which a `set` of labels is iterated. */
  type Picker = set<int> -> seq<int>

  /** Iterating a set visits each of its elements once and nothing else. */
  ghost predicate IteratesSets(pick: Picker)
  {
    forall s :: (forall v :: v in pick(s) <==> v in s) &&
      forall k, k' :: 0 <= k < k' < |pick(s)| ==> pick(s)[k] != pick(s)[k']
  }

  lemma PickOf(pick: Picker, s: set<int>)
    requires IteratesSets(pick)
    ensures forall v :: v in pick(s) <==> v in s
  {
  }

  /** `order` is the order in which the futures of the rows complete: every
      row index once. */
  predicate CompletionOrder(order: seq<int>, boxes: int)
  {
    |order| == MaxInt(boxes, 0)
    && (forall k :: 0 <= k < |order| ==> 0 <= order[k] < boxes)
    && forall k, k' :: 0 <= k < k' < |order| ==> order[k] != order[k']
  }

  /** `if args.peak_fraction:` — absent and 0 both select the tiled pipeline. */
  predicate PeakMode(o: Options)
  {
    o.peakFraction.Some? && o.peakFraction.value != 0.0
  }

  /** The `RuntimeError` check: both lists given, of different lengths. */
  predicate Mismatch(o: Options)
  {
    |o.scales| > 0 && |o.sigmas| > 0 && |o.scales| != |o.sigmas|
  }

  /** `size = npix / args.boxes` and `overlap = int(size * args.overlap / 2)`. */
  function Config(o: Options, npix: nat): (c: TileConfig)
    requires o.boxes != 0
    ensures c.boxes == o.boxes && c.npix == npix && c.size == npix as real / o.boxes as real
  {
    var size := npix as real / o.boxes as real;
    TileConfig(o.boxes, size, Trunc(size * o.overlap / 2.0), npix, o.sigma, o.scales, o.sigmas)
  }

  /** What the futures return: row `i` is `work(i, ...)`. */
  function Rows(c: TileConfig, im: Grid<real>, clip: Clip, smooth: Smooth): (rows: seq<seq<TileResult>>)
    requires IsRect(im, c.npix, c.npix)
    requires ClipKeepsShape(clip) && SmoothKeepsShape(smooth)
    ensures |rows| == MaxInt(c.boxes, 0)
  {
    seq(MaxInt(c.boxes, 0), i requires 0 <= i < MaxInt(c.boxes, 0) =>
      seq(MaxInt(c.boxes, 0), j requires 0 <= j < MaxInt(c.boxes, 0) => Entry(i, j, c, im, clip, smooth)))
  }

  /** Every entry of the rows, in any completion order, fits the mask. */
  lemma CompletedFits(c: TileConfig, im: Grid<real>, clip: Clip, smooth: Smooth, order: seq<int>)
    requires IsRect(im, c.npix, c.npix)
    requires ClipKeepsShape(clip) && SmoothKeepsShape(smooth)
    requires forall k :: 0 <= k < |order| ==> 0 <= order[k] < MaxInt(c.boxes, 0)
    ensures AllFit(Completed(Rows(c, im, clip, smooth), order), c.npix)
  {
    var rows := Rows(c, im, clip, smooth);
    var rs := Completed(rows, order);
    forall k | 0 <= k < |rs| ensures Fits(rs[k].patch, c.npix, c.npix) {
      CompletedMembers(rows, order, rs[k]);
      var o, j :| o in order && 0 <= o < |rows| && 0 <= j < |rows[o]| && rs[k] == rows[o][j];
    }
  }

  /** The mask before labelling: the assembled tiles, with the negative pixels
      cleared when `--no-negatives` is given. */
  function PreMask(o: Options, npix: nat, im: Grid<real>, clip: Clip, smooth: Smooth, order: seq<int>): (m: Grid<bool>)
    requires IsRect(im, npix, npix)
    requires ClipKeepsShape(clip) && SmoothKeepsShape(smooth)
    requires o.boxes != 0 && CompletionOrder(order, o.boxes)
    ensures IsRect(m, npix, npix)
  {
    var c := Config(o, npix);
    CompletedFits(c, im, clip, smooth, order);
    var rs := Completed(Rows(c, im, clip, smooth), order);
    seq(npix, x requires 0 <= x < npix =>
      seq(npix, y requires 0 <= y < npix => CellAfter(rs, x, y) && !(o.noNegatives && im[x][y] < 0.0)))
  }

  /** `set(islands.flatten())`. */
  function LabelSet(labels: Grid<int>): set<int>
  {
    set x, y | 0 <= x < |labels| && 0 <= y < |labels[x]| :: labels[x][y]
  }

  /** Every label of the set occurs in the label image, and only those. */
  lemma LabelSetPresent(labels: Grid<int>, v: int)
    ensures v in LabelSet(labels) <==> Present(labels, v)
  {
    if Present(labels, v) {
      var x, y :| 0 <= x < |labels| && 0 <= y < |labels[x]| && labels[x][y] == v;
      assert labels[x][y] in LabelSet(labels);
    }
  }

  /** Every cell of the grid is set. */
  predicate AllSet(m: Grid<bool>)
  {
    forall x, y :: 0 <= x < |m| && 0 <= y < |m[x]| ==> m[x][y]
  }

  /** `labels.remove(0)` succeeds exactly when some cell of the mask is unset. */
  lemma BackgroundLabel(labeler: Labeler, m: Grid<bool>)
    requires LabelsIslands(labeler)
    ensures 0 in LabelSet(labeler(m)) <==> !AllSet(m)
  {
    LabelOf(labeler, m);
    LabelSetPresent(labeler(m), 0);
  }

  /** The labels whose islands are dilated, in iteration order. */
  ghost function IslandOrder(labeler: Labeler, pick: Picker, m: Grid<bool>): seq<int>
  {
    pick(LabelSet(labeler(m)) - {0})
  }

  /** Every label picked from the set of nonzero labels occurs in the image. */
  lemma PickedPresent(labeler: Labeler, pick: Picker, m: Grid<bool>)
    requires IteratesSets(pick)
    ensures forall k :: 0 <= k < |IslandOrder(labeler, pick, m)| ==> Present(labeler(m), IslandOrder(labeler, pick, m)[k])
  {
    var s := LabelSet(labeler(m)) - {0};
    PickOf(pick, s);
    forall k | 0 <= k < |pick(s)| ensures Present(labeler(m), pick(s)[k]) {
      assert pick(s)[k] in pick(s);
      LabelSetPresent(labeler(m), pick(s)[k]);
    }
  }

  /** No island window of the mask `m` contains cell `(x, y)`. */
  ghost predicate OutsideWindows(labeler: Labeler, pick: Picker, m: Grid<bool>, x: int, y: int)
    requires IteratesSets(pick)
  {
    PickedPresent(labeler, pick, m);
    Untouched(labeler(m), IslandOrder(labeler, pick, m), |m|, x, y)
  }

  /** The loop that submits `work(i, ...)` for every row, each row's result
      taken in row order. */
  method WorkAll(c: TileConfig, im: Grid<real>, clip: Clip, smooth: Smooth) returns (rows: seq<seq<TileResult>>)
    requires IsRect(im, c.npix, c.npix)
    requires ClipKeepsShape(clip) && SmoothKeepsShape(smooth)
    ensures rows == Rows(c, im, clip, smooth)
  {
    rows := [];
    var all := Rows(c, im, clip, smooth);
    for i := 0 to MaxInt(c.boxes, 0)
      invariant rows == all[..i]
    {
      var row := Work(i, c, im, clip, smooth);
      assert row == all[i];
      rows := rows + [row];
    }
  }

  /** `mask = numpy.zeros(...)`, the write of every entry in completion order
      and, with `--no-negatives`, the clearing of the negative pixels. */
  method AssembleTiles(o: Options, npix: nat, im: Grid<real>, clip: Clip, smooth: Smooth, order: seq<int>)
    returns (mask: array2<bool>)
    requires IsRect(im, npix, npix)
    requires ClipKeepsShape(clip) && SmoothKeepsShape(smooth)
    requires o.boxes != 0 && CompletionOrder(order, o.boxes)
    ensures fresh(mask) && mask.Length0 == npix && mask.Length1 == npix
    ensures Snapshot(mask) == PreMask(o, npix, im, clip, smooth, order)
  {
    var c := Config(o, npix);
    var rows := WorkAll(c, im, clip, smooth);
    var rs := Completed(rows, order);
    CompletedFits(c, im, clip, smooth, order);
    mask := Assemble(npix, rs);
    if o.noNegatives {
      SuppressNegatives(mask, im);
    }
    ghost var pre, snap := PreMask(o, npix, im, clip, smooth, order), Snapshot(mask);
    forall x | 0 <= x < npix ensures snap[x] == pre[x] {
    }
  }

  /** The run of `main` after the image has been read: either mode, every
      error it can raise on the way, and the mask it writes. */
  method Run(im: Grid<real>, npix: nat, o: Options, clip: Clip, smooth: Smooth,
             order: seq<int>, labeler: Labeler, pick: Picker)
    returns (r: Result<array2<Cell>>)
    requires IsRect(im, npix, npix)
    requires ClipKeepsShape(clip) && SmoothKeepsShape(smooth)
    requires LabelsIslands(labeler) && IteratesSets(pick)
    requires CompletionOrder(order, o.boxes)
    ensures r == Err(EmptyImage) <==> PeakMode(o) && npix == 0
    ensures r == Err(DivisionByZero) <==> !PeakMode(o) && o.boxes == 0
    ensures r == Err(ScaleSigmaMismatch) <==> !PeakMode(o) && o.boxes != 0 && Mismatch(o)
    ensures r == Err(NoBackground) <==>
      (!PeakMode(o) && o.boxes != 0 && !Mismatch(o) && AllSet(PreMask(o, npix, im, clip, smooth, order)))
    ensures r.Ok? ==> fresh(r.value) && r.value.Length0 == npix && r.value.Length1 == npix
    ensures r.Ok? && PeakMode(o) ==> forall x, y :: 0 <= x < npix && 0 <= y < npix ==>
      r.value[x, y] == PeakMask(im, o.peakFraction.value)[x][y]
    ensures r.Ok? && !PeakMode(o) ==> TiledOutput(r.value, o, npix, im, clip, smooth, order, labeler, pick)
  {
    if PeakMode(o) {
      if npix == 0 {
        return Err(EmptyImage);
      }
      var out := PeakFraction(im, npix, o.peakFraction.value);
      return Ok(out);
    }
    r := Tiled(im, npix, o, clip, smooth, order, labeler, pick);
  }

  /** The mask `for label in labels:` makes of the mask `m` under `--dilate`:
      the island steps over the nonzero labels of `m`'s labelling, in the
      order the set of labels is iterated. */
  ghost function DilatedMask(m: Grid<bool>, im: Grid<real>, tol: real, diter: int, labeler: Labeler, pick: Picker): (r: Grid<bool>)
    requires LabelsIslands(labeler) && IteratesSets(pick)
    requires IsRect(m, |m|, |m|) && IsRect(im, |m|, |m|)
    ensures IsRect(r, |m|, |m|)
  {
    LabelOf(labeler, m);
    PickedPresent(labeler, pick, m);
    DilateFold(m, im, labeler(m), IslandOrder(labeler, pick, m), tol, diter)
  }

  /** What the tiled pipeline writes from the mask `pre` it has before
      labelling: a cell is `On` exactly when it is set in `pre`, or, with
      `--dilate`, exactly when it is set in the dilated mask of `pre`. */
  ghost predicate Written(out: array2<Cell>, pre: Grid<bool>, dilate: bool, im: Grid<real>, tol: real, diter: int,
                          labeler: Labeler, pick: Picker)
    requires LabelsIslands(labeler) && IteratesSets(pick)
    requires out.Length0 == out.Length1
    requires IsRect(pre, out.Length0, out.Length1) && IsRect(im, out.Length0, out.Length1)
    reads out
  {
    var post := if dilate then DilatedMask(pre, im, tol, diter, labeler, pick) else pre;
    forall x, y :: 0 <= x < out.Length0 && 0 <= y < out.Length1 ==> (out[x, y] == On <==> post[x][y])
  }

  /** With `--dilate` the output marks every cell of `pre`, and agrees with
      `pre` outside every island window. */
  lemma DilatedOutputBounds(out: array2<Cell>, pre: Grid<bool>, im: Grid<real>, tol: real, diter: int,
                            labeler: Labeler, pick: Picker)
    requires LabelsIslands(labeler) && IteratesSets(pick)
    requires out.Length0 == out.Length1
    requires IsRect(pre, out.Length0, out.Length1) && IsRect(im, out.Length0, out.Length1)
    requires Written(out, pre, true, im, tol, diter, labeler, pick)
    ensures forall x, y :: 0 <= x < out.Length0 && 0 <= y < out.Length1 && pre[x][y] ==> out[x, y] == On
    ensures forall x, y :: 0 <= x < out.Length0 && 0 <= y < out.Length1 && OutsideWindows(labeler, pick, pre, x, y) ==>
      (out[x, y] == On <==> pre[x][y])
  {
    LabelOf(labeler, pre);
    PickedPresent(labeler, pick, pre);
    var order := IslandOrder(labeler, pick, pre);
    var post := DilatedMask(pre, im, tol, diter, labeler, pick);
    assert post == DilateFold(pre, im, labeler(pre), order, tol, diter);
    DilateFoldGrows(pre, im, labeler(pre), order, tol, diter);
    forall x, y | 0 <= x < out.Length0 && 0 <= y < out.Length1 && OutsideWindows(labeler, pick, pre, x, y)
      ensures post[x][y] == pre[x][y]
    {
      DilateFoldFrame(pre, im, labeler(pre), order, tol, diter, x, y);
    }
  }

  ghost predicate TiledOutput(out: array2<Cell>, o: Options, npix: nat, im: Grid<real>, clip: Clip, smooth: Smooth,
                              order: seq<int>, labeler: Labeler, pick: Picker)
    requires IsRect(im, npix, npix)
    requires ClipKeepsShape(clip) && SmoothKeepsShape(smooth)
    requires LabelsIslands(labeler) && IteratesSets(pick)
    requires o.boxes != 0 && CompletionOrder(order, o.boxes)
    requires out.Length0 == npix && out.Length1 == npix
    reads out
  {
    Written(out, PreMask(o, npix, im, clip, smooth, order), o.dilate, im, o.tolerance, o.diter, labeler, pick)
  }

  /** The tiled pipeline: the two checks on the options, assembly, labelling
      and the rest. */
  method Tiled(im: Grid<real>, npix: nat, o: Options, clip: Clip, smooth: Smooth,
               order: seq<int>, labeler: Labeler, pick: Picker)
    returns (r: Result<array2<Cell>>)
    requires IsRect(im, npix, npix)
    requires ClipKeepsShape(clip) && SmoothKeepsShape(smooth)
    requires LabelsIslands(labeler) && IteratesSets(pick)
    requires CompletionOrder(order, o.boxes)
    ensures r.Err? ==> r.error != EmptyImage
    ensures r == Err(DivisionByZero) <==> o.boxes == 0
    ensures r == Err(ScaleSigmaMismatch) <==> o.boxes != 0 && Mismatch(o)
    ensures r == Err(NoBackground) <==>
      (o.boxes != 0 && !Mismatch(o) && AllSet(PreMask(o, npix, im, clip, smooth, order)))
    ensures r.Ok? ==> fresh(r.value) && r.value.Length0 == npix && r.value.Length1 == npix
    ensures r.Ok? ==> o.boxes != 0 && TiledOutput(r.value, o, npix, im, clip, smooth, order, labeler, pick)
  {
    if o.boxes == 0 {
      return Err(DivisionByZero);
    }
    if Mismatch(o) {
      return Err(ScaleSigmaMismatch);
    }
    var mask := AssembleTiles(o, npix, im, clip, smooth, order);
    r := LabelAndDilate(mask, im, o.dilate, o.tolerance, o.diter, labeler, pick);
  }

  /** `islands = measure.label(mask, background=0)`, `labels.remove(0)`, the
      optional dilation of every island and the finalization of the mask. */
  method LabelAndDilate(mask: array2<bool>, im: Grid<real>, dilate: bool, tol: real, diter: int,
                        labeler: Labeler, pick: Picker)
    returns (r: Result<array2<Cell>>)
    requires mask.Length0 == mask.Length1 && IsRect(im, mask.Length0, mask.Length1)
    requires LabelsIslands(labeler) && IteratesSets(pick)
    modifies mask
    ensures r.Err? <==> AllSet(old(Snapshot(mask)))
    ensures r.Err? ==> r.error == NoBackground
    ensures r.Ok? ==> fresh(r.value) && r.value.Length0 == mask.Length0 && r.value.Length1 == mask.Length1
    ensures r.Ok? ==> Written(r.value, old(Snapshot(mask)), dilate, im, tol, diter, labeler, pick)
    ensures r.Ok? && dilate ==> Snapshot(mask) == DilatedMask(old(Snapshot(mask)), im, tol, diter, labeler, pick)
    ensures r.Err? || !dilate ==> Snapshot(mask) == old(Snapshot(mask))
  {
    ghost var pre := Snapshot(mask);
    var labels := labeler(Snapshot(mask));
    LabelOf(labeler, pre);
    var ids := LabelSet(labels);
    BackgroundLabel(labeler, pre);
    if 0 !in ids {
      return Err(NoBackground);
    }
    if dilate {
      DilateIslands(mask, im, labels, ids - {0}, tol, diter, labeler, pick);
    }
    ghost var post := Snapshot(mask);
    var out := Finalize(mask);
    WrittenFrom(out, pre, post, dilate, im, tol, diter, labeler, pick);
    r := Ok(out);
  }

  /** `for label in labels:` with `--dilate`, on the label image `labels` of
      the mask and its set of nonzero labels `ids`: the new mask is the
      dilated mask of the old one. */
  method DilateIslands(mask: array2<bool>, im: Grid<real>, labels: Grid<int>, ids: set<int>,
                       tol: real, diter: int, labeler: Labeler, pick: Picker)
    requires mask.Length0 == mask.Length1 && IsRect(im, mask.Length0, mask.Length1)
    requires LabelsIslands(labeler) && IteratesSets(pick)
    requires labels == labeler(Snapshot(mask)) && ids == LabelSet(labels) - {0}
    modifies mask
    ensures Snapshot(mask) == DilatedMask(old(Snapshot(mask)), im, tol, diter, labeler, pick)
  {
    ghost var pre := Snapshot(mask);
    LabelOf(labeler, pre);
    PickedPresent(labeler, pick, pre);
    assert pick(ids) == IslandOrder(labeler, pick, pre);
    DilateAll(mask, im, labels, pick(ids), tol, diter);
  }

  /** The finalized mask `out` of the mask `post`, which is `pre` without
      `--dilate` and the dilated mask of `pre` with it, is what the pipeline
      writes. */
  lemma WrittenFrom(out: array2<Cell>, pre: Grid<bool>, post: Grid<bool>, dilate: bool, im: Grid<real>,
                    tol: real, diter: int, labeler: Labeler, pick: Picker)
    requires LabelsIslands(labeler) && IteratesSets(pick)
    requires out.Length0 == out.Length1
    requires IsRect(pre, out.Length0, out.Length1) && IsRect(im, out.Length0, out.Length1)
    requires IsRect(post, out.Length0, out.Length1)
    requires forall x, y :: 0 <= x < out.Length0 && 0 <= y < out.Length1 ==> (out[x, y] == On <==> post[x][y])
    requires !dilate ==> post == pre
    requires dilate ==> post == DilatedMask(pre, im, tol, diter, labeler, pick)
    ensures Written(out, pre, dilate, im, tol, diter, labeler, pick)
  {
  }

  /** The peak-fraction mode: `peak = im.max()`, the cells above
      `peak * peak_fraction` set and all other cells the fill value. */
  method PeakFraction(im: Grid<real>, npix: nat, pf: real) returns (out: array2<Cell>)
    requires IsRect(im, npix, npix) && 0 < npix
    ensures fresh(out) && out.Length0 == npix && out.Length1 == npix
    ensures forall x, y :: 0 <= x < npix && 0 <= y < npix ==> out[x, y] == PeakMask(im, pf)[x][y]
  {
    var level := Level(Peak(im), pf);
    var mask := new bool[npix, npix]((x, y) => 0 <= x < npix && 0 <= y < npix && im[x][y] > level);
    out := Finalize(mask);
  }
}
