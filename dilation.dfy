/** Island growth: the 3x3 binary dilation with a zero border, the flux of a
    crop, the `while make_bigger` loop for one island and the loop over all
    islands, each of which writes its final crop back into the shared mask. */
module Dilation {
  import opened Grids
  import opened Tiling
  import opened Islands

  /** Some cell of the 3x3 neighbourhood of `(x, y)` is set. A neighbour outside
      the grid counts as unset (the zero border of `binary_dilation`). */
  predicate Near(g: Grid<bool>, x: int, y: int)
  {
    At(g, x - 1, y - 1) || At(g, x - 1, y) || At(g, x - 1, y + 1) ||
    At(g, x, y - 1) || At(g, x, y) || At(g, x, y + 1) ||
    At(g, x + 1, y - 1) || At(g, x + 1, y) || At(g, x + 1, y + 1)
  }

  /** `binary_dilation(g, structure=generate_binary_structure(2, 2), iterations=1)`,
      built row by row; `DilateCell` gives its cells. */
  function Dilate(g: Grid<bool>): (d: Grid<bool>)
    ensures SameShape(d, g)
  {
    DilateRows(g, |g|)
  }

  /** The first `n` rows of the dilation of `g`. */
  function DilateRows(g: Grid<bool>, n: nat): (rows: Grid<bool>)
    requires n <= |g|
    ensures |rows| == n && forall x :: 0 <= x < n ==> |rows[x]| == |g[x]|
  {
    if n == 0 then [] else DilateRows(g, n - 1) + [DilateRow(g, n - 1)]
  }

  /** Row `x` of the dilation of `g`. */
  function DilateRow(g: Grid<bool>, x: nat): (row: seq<bool>)
    requires x < |g|
    ensures |row| == |g[x]|
  {
    seq(|g[x]|, y requires 0 <= y < |g[x]| => Near(g, x, y))
  }

  /** A cell of the dilation is set exactly when some cell of its 3x3
      neighbourhood is set in `g`. */
  lemma DilateCell(g: Grid<bool>, x: int, y: int)
    requires 0 <= x < |g| && 0 <= y < |g[x]|
    ensures Dilate(g)[x][y] == Near(g, x, y)
  {
    DilateRowsCell(g, |g|, x, y);
  }

  lemma {:induction false} DilateRowsCell(g: Grid<bool>, n: nat, x: int, y: int)
    requires n <= |g| && 0 <= x < n && 0 <= y < |g[x]|
    ensures DilateRows(g, n)[x][y] == Near(g, x, y)
  {
    if x < n - 1 {
      DilateRowsCell(g, n - 1, x, y);
      assert DilateRows(g, n)[x] == DilateRows(g, n - 1)[x];
    } else {
      assert DilateRows(g, n)[x] == DilateRow(g, n - 1);
    }
  }

  /** `a` is contained in `b`: same shape, and every cell set in `a` is set in `b`. */
  predicate Within(a: Grid<bool>, b: Grid<bool>)
  {
    SameShape(a, b) && forall x, y :: 0 <= x < |a| && 0 <= y < |a[x]| && a[x][y] ==> b[x][y]
  }

  /** A dilated cell is set exactly when a cell at Chebyshev distance at most 1
      is set in the grid. */
  lemma DilateNeighbourhood(g: Grid<bool>, x: int, y: int)
    requires 0 <= x < |g| && 0 <= y < |g[x]|
    ensures Dilate(g)[x][y] <==>
      exists a, b :: x - 1 <= a <= x + 1 && y - 1 <= b <= y + 1 && At(g, a, b)
  {
    DilateCell(g, x, y);
    if exists a, b :: x - 1 <= a <= x + 1 && y - 1 <= b <= y + 1 && At(g, a, b) {
      var a, b :| x - 1 <= a <= x + 1 && y - 1 <= b <= y + 1 && At(g, a, b);
      assert Near(g, x, y);
    }
  }

  /** Dilation never removes a cell. */
  lemma DilateIsExtensive(g: Grid<bool>)
    ensures Within(g, Dilate(g))
  {
    var d := Dilate(g);
    forall x, y | 0 <= x < |g| && 0 <= y < |g[x]| && g[x][y] ensures d[x][y] {
      DilateCell(g, x, y);
      assert At(g, x, y);
    }
  }

  /** `k` dilations of `g`. */
  function DilateN(g: Grid<bool>, k: nat): (d: Grid<bool>)
    ensures SameShape(d, g)
  {
    if k == 0 then g else Dilate(DilateN(g, k - 1))
  }

  lemma WithinTransitive(a: Grid<bool>, b: Grid<bool>, c: Grid<bool>)
    requires Within(a, b) && Within(b, c)
    ensures Within(a, c)
  {
  }

  /** Successive dilations form an increasing chain. */
  lemma {:induction false} DilateChain(g: Grid<bool>, k: nat, k': nat)
    requires k <= k'
    ensures Within(DilateN(g, k), DilateN(g, k'))
  {
    if k == k' {
    } else {
      DilateChain(g, k, k' - 1);
      DilateIsExtensive(DilateN(g, k' - 1));
      WithinTransitive(DilateN(g, k), DilateN(g, k' - 1), DilateN(g, k'));
    }
  }

  /** Sum of `im[y]` over the set cells of the first `n` columns of a row. */
  function RowFlux(im: seq<real>, m: seq<bool>, n: nat): real
    requires n <= |im| && n <= |m|
  {
    if n == 0 then 0.0 else RowFlux(im, m, n - 1) + if m[n - 1] then im[n - 1] else 0.0
  }

  /** `(iim * imask).sum()`: the image summed over the set cells of a crop. */
  function Flux(im: Grid<real>, m: Grid<bool>): real
    requires SameShape(m, im)
  {
    FluxRows(im, m, |m|)
  }

  /** The flux of the first `n` rows. */
  function FluxRows(im: Grid<real>, m: Grid<bool>, n: nat): real
    requires SameShape(m, im) && n <= |m|
  {
    if n == 0 then 0.0 else FluxRows(im, m, n - 1) + RowFlux(im[n - 1], m[n - 1], |m[n - 1]|)
  }

  /** A crop with no set cell has zero flux, whatever the image. */
  lemma EmptyMaskNoFlux(im: Grid<real>, m: Grid<bool>)
    requires SameShape(m, im)
    requires forall x, y :: 0 <= x < |m| && 0 <= y < |m[x]| ==> !m[x][y]
    ensures Flux(im, m) == 0.0
  {
    EmptyRowsNoFlux(im, m, |m|);
  }

  lemma {:induction false} EmptyRowsNoFlux(im: Grid<real>, m: Grid<bool>, n: nat)
    requires SameShape(m, im) && n <= |m|
    requires forall x, y :: 0 <= x < |m| && 0 <= y < |m[x]| ==> !m[x][y]
    ensures FluxRows(im, m, n) == 0.0
  {
    if n > 0 {
      EmptyRowsNoFlux(im, m, n - 1);
      EmptyRowNoFlux(im[n - 1], m[n - 1], |m[n - 1]|);
    }
  }

  lemma {:induction false} EmptyRowNoFlux(im: seq<real>, m: seq<bool>, n: nat)
    requires n <= |im| && n <= |m|
    requires forall y :: 0 <= y < |m| ==> !m[y]
    ensures RowFlux(im, m, n) == 0.0
  {
    if n > 0 {
      EmptyRowNoFlux(im, m, n - 1);
    }
  }

  function Abs(v: real): real
  {
    if v < 0.0 then -v else v
  }

  /** After the `t`-th pass of the loop (so `counter == t`, and the crop has been
      dilated `t` times) `make_bigger` is still true: the relative flux change
      `|f0 - f1| / f0` against the fixed `f0` is at least the tolerance and
      positive, and `t` does not exceed `diter`. */
  predicate Grows(im: Grid<real>, crop: Grid<bool>, f0: real, tol: real, diter: int, t: nat)
    requires SameShape(crop, im) && f0 > 0.0
  {
    var df := Change(f0, Flux(im, DilateN(crop, t)));
    !(df < tol || df <= 0.0) && t <= diter
  }

  /** `abs(f0 - f1) / f0`: the change of the flux relative to `f0`. */
  function Change(f0: real, f1: real): real
    requires f0 != 0.0
  {
    Abs(f0 - f1) / f0
  }

  /** The number of dilations the loop leaves in `nmask`: one before the loop,
      and one more for every pass that keeps `make_bigger` true. */
  function Dilations(f0: real, counter: nat): nat
  {
    if f0 > 0.0 then counter else 1
  }

  /** The stopping rule of the loop for an island with reference flux `f0`:
      when `f0 <= 0` the loop does not run; otherwise it runs `counter >= 1`
      passes, at most `max(1, diter + 1)`, every pass but the last keeps
      growing, and the last does not. */
  predicate Stops(iim: Grid<real>, crop: Grid<bool>, f0: real, tol: real, diter: int, counter: nat)
    requires SameShape(crop, iim)
  {
    (f0 <= 0.0 ==> counter == 0) &&
    (f0 > 0.0 ==> 1 <= counter <= MaxInt(1, diter + 1) &&
                  (forall t :: 1 <= t < counter ==> Grows(iim, crop, f0, tol, diter, t)) &&
                  !Grows(iim, crop, f0, tol, diter, counter))
  }

  /** The first pass from `t` on that does not keep growing. A pass that
      grows has `t <= diter`, so the search ends by `diter + 1`. */
  function FirstStop(im: Grid<real>, crop: Grid<bool>, f0: real, tol: real, diter: int, t: nat): (c: nat)
    requires SameShape(crop, im) && f0 > 0.0
    ensures t <= c && !Grows(im, crop, f0, tol, diter, c)
    ensures forall t' :: t <= t' < c ==> Grows(im, crop, f0, tol, diter, t')
    decreases diter + 1 - t
  {
    if Grows(im, crop, f0, tol, diter, t) then FirstStop(im, crop, f0, tol, diter, t + 1) else t
  }

  /** The number of passes the loop makes for a crop with reference flux
      `f0`: none when `f0 <= 0`, otherwise the first pass that stops growing. */
  function StopCount(im: Grid<real>, crop: Grid<bool>, f0: real, tol: real, diter: int): nat
    requires SameShape(crop, im)
  {
    if f0 > 0.0 then FirstStop(im, crop, f0, tol, diter, 1) else 0
  }

  /** The stopping rule has exactly one solution, `StopCount`: the final
      `counter` of the loop is determined by the crop, the image and `f0`. */
  lemma StopsExactly(im: Grid<real>, crop: Grid<bool>, f0: real, tol: real, diter: int, counter: nat)
    requires SameShape(crop, im)
    ensures Stops(im, crop, f0, tol, diter, counter) <==> counter == StopCount(im, crop, f0, tol, diter)
  {
    if f0 > 0.0 {
      var s := StopCount(im, crop, f0, tol, diter);
      if s > 1 {
        assert Grows(im, crop, f0, tol, diter, s - 1);
      }
    }
  }

  /** The first dilation and the `while make_bigger` loop for a crop `imask`
      of image `iim` with reference flux `f0`: it returns the final `counter`
      and `nmask`, which is `imask` dilated once per pass that kept growing,
      plus the dilation made before the loop. */
  method Grow(iim: Grid<real>, imask: Grid<bool>, f0: real, tol: real, diter: int)
    returns (counter: nat, nmask: Grid<bool>)
    requires SameShape(imask, iim)
    ensures Stops(iim, imask, f0, tol, diter, counter)
    ensures nmask == DilateN(imask, Dilations(f0, counter))
  {
    var makeBigger := f0 > 0.0;
    counter := 0;
    nmask := Dilate(imask);
    ghost var k := 1;
    assert nmask == DilateN(imask, k);
    while makeBigger
      invariant makeBigger ==> f0 > 0.0 && counter <= MaxInt(diter, 0)
      invariant k == if makeBigger then counter + 1 else Dilations(f0, counter)
      invariant nmask == DilateN(imask, k)
      invariant f0 <= 0.0 ==> counter == 0
      invariant counter <= MaxInt(1, diter + 1)
      invariant f0 > 0.0 ==> GrowsBelow(iim, imask, f0, tol, diter, if makeBigger then counter + 1 else counter)
      invariant f0 > 0.0 && !makeBigger ==> 1 <= counter && !Grows(iim, imask, f0, tol, diter, counter)
      decreases if makeBigger then MaxInt(diter, 0) + 1 - counter else 0
    {
      makeBigger, nmask, k := Pass(iim, imask, f0, tol, diter, counter, nmask);
      counter := counter + 1;
    }
    StopsAfter(iim, imask, f0, tol, diter, counter);
  }

  /** The loop's exit state, with the passes that grew recorded one at a
      time, is the stopping rule. */
  lemma StopsAfter(iim: Grid<real>, imask: Grid<bool>, f0: real, tol: real, diter: int, counter: nat)
    requires SameShape(imask, iim)
    requires f0 <= 0.0 ==> counter == 0
    requires f0 > 0.0 ==> 1 <= counter <= MaxInt(1, diter + 1) && GrowsBelow(iim, imask, f0, tol, diter, counter) &&
                          !Grows(iim, imask, f0, tol, diter, counter)
    ensures Stops(iim, imask, f0, tol, diter, counter)
  {
    if f0 > 0.0 {
      GrowsBelowAll(iim, imask, f0, tol, diter, counter);
    }
  }

  /** One pass of `while make_bigger` after `counter` passes, with `nmask`
      the crop dilated `counter + 1` times: the flux of `nmask`, the two
      stopping tests, and the next dilation when the loop goes on. */
  method Pass(iim: Grid<real>, imask: Grid<bool>, f0: real, tol: real, diter: int, counter: nat,
              nmask: Grid<bool>)
    returns (more: bool, next: Grid<bool>, ghost dilations: nat)
    requires SameShape(imask, iim) && f0 > 0.0
    requires nmask == DilateN(imask, counter + 1)
    ensures more <==> Grows(iim, imask, f0, tol, diter, counter + 1)
    ensures dilations == if more then counter + 2 else counter + 1
    ensures next == DilateN(imask, dilations)
  {
    var f1 := Flux(iim, nmask);
    var df := Change(f0, f1);
    GrowsAt(iim, imask, f0, tol, diter, counter + 1, nmask, df);
    more := true;
    if df < tol || df <= 0.0 {
      more := false;
    }
    if counter + 1 > diter {
      more := false;
    }
    next, dilations := nmask, counter + 1;
    if more {
      next, dilations := Dilate(nmask), counter + 2;
    }
  }

  /** Pass `t` keeps growing exactly when the flux change of the crop dilated
      `t` times passes both tests and `t` is within `diter`. */
  lemma GrowsAt(im: Grid<real>, crop: Grid<bool>, f0: real, tol: real, diter: int, t: nat,
                d: Grid<bool>, df: real)
    requires SameShape(crop, im) && f0 > 0.0
    requires d == DilateN(crop, t) && df == Change(f0, Flux(im, d))
    ensures Grows(im, crop, f0, tol, diter, t) <==> !(df < tol || df <= 0.0) && t <= diter
  {
  }

  /** Every pass `1 <= t < n` kept growing, one pass at a time. */
  predicate GrowsBelow(im: Grid<real>, crop: Grid<bool>, f0: real, tol: real, diter: int, n: nat)
    requires SameShape(crop, im) && f0 > 0.0
  {
    n <= 1 || (GrowsBelow(im, crop, f0, tol, diter, n - 1) && Grows(im, crop, f0, tol, diter, n - 1))
  }

  lemma {:induction false} GrowsBelowAll(im: Grid<real>, crop: Grid<bool>, f0: real, tol: real, diter: int, n: nat)
    requires SameShape(crop, im) && f0 > 0.0
    ensures GrowsBelow(im, crop, f0, tol, diter, n) <==> forall t :: 1 <= t < n ==> Grows(im, crop, f0, tol, diter, t)
  {
    if n > 1 {
      GrowsBelowAll(im, crop, f0, tol, diter, n - 1);
    }
  }

  /** `g` with the window `b` replaced by the crop of `g` at `b` dilated `n` times. */
  function Regrow(g: Grid<bool>, b: Box, n: nat): (r: Grid<bool>)
    requires 0 <= b.xi && b.xf <= |g| && 0 <= b.yi && forall x :: 0 <= x < |g| ==> b.yf <= |g[x]|
    ensures SameShape(r, g)
  {
    var crop := Crop(g, b.xi, b.xf, b.yi, b.yf);
    Paste(g, Patch(b.xi, b.xf, b.yi, b.yf, DilateN(crop, n)))
  }

  /** Regrowing a window changes no cell outside it and clears no cell. */
  lemma RegrowKeeps(g: Grid<bool>, b: Box, n: nat)
    requires 0 <= b.xi && b.xf <= |g| && 0 <= b.yi && forall x :: 0 <= x < |g| ==> b.yf <= |g[x]|
    ensures Within(g, Regrow(g, b, n))
    ensures forall x, y :: 0 <= x < |g| && 0 <= y < |g[x]| && !InBox(b, x, y) ==> Regrow(g, b, n)[x][y] == g[x][y]
  {
    var crop := Crop(g, b.xi, b.xf, b.yi, b.yf);
    var p := Patch(b.xi, b.xf, b.yi, b.yf, DilateN(crop, n));
    var r := Paste(g, p);
    assert r == Regrow(g, b, n);
    forall x, y | 0 <= x < |g| && 0 <= y < |g[x]| && g[x][y]
      ensures r[x][y]
    {
      if InBox(b, x, y) {
        DilatedCropKeeps(g, b, n, x, y);
        assert r[x][y] == ValueAt(p, x, y) == DilateN(crop, n)[x - b.xi][y - b.yi];
      }
    }
  }

  /** One iteration of the loop over the islands, for the crop `b`: the
      reference flux `f0 = (iim * imask).sum()`, the growth loop and the
      write-back `mask[imslice] = nmask`. The new mask is the old one with
      the window replaced by the crop dilated as often as the loop decided.
      It returns the final `counter`. */
  method DilateIsland(mask: array2<bool>, im: Grid<real>, b: Box, tol: real, diter: int)
    returns (counter: nat, ghost dilations: nat)
    requires IsRect(im, mask.Length0, mask.Length1)
    requires 0 <= b.xi && b.xf <= mask.Length0 && 0 <= b.yi && b.yf <= mask.Length1
    modifies mask
    ensures var crop, iim := Crop(old(Snapshot(mask)), b.xi, b.xf, b.yi, b.yf), Crop(im, b.xi, b.xf, b.yi, b.yf);
      var f0 := Flux(iim, crop);
      Stops(iim, crop, f0, tol, diter, counter) && dilations == Dilations(f0, counter)
    ensures Snapshot(mask) == Regrow(old(Snapshot(mask)), b, dilations)
  {
    var imask := Crop(Snapshot(mask), b.xi, b.xf, b.yi, b.yf);
    var iim := Crop(im, b.xi, b.xf, b.yi, b.yf);
    var f0 := Flux(iim, imask);
    var nmask;
    counter, nmask := Grow(iim, imask, f0, tol, diter);
    dilations := Dilations(f0, counter);
    WritePatch(mask, Patch(b.xi, b.xf, b.yi, b.yf, nmask));
  }

  /** A cell set in a grid stays set in every dilation of a crop containing it. */
  lemma DilatedCropKeeps(g: Grid<bool>, b: Box, k: nat, x: int, y: int)
    requires 0 <= b.xi && b.xf <= |g| && 0 <= b.yi && forall x' :: 0 <= x' < |g| ==> b.yf <= |g[x']|
    requires InBox(b, x, y) && g[x][y]
    ensures var crop := Crop(g, b.xi, b.xf, b.yi, b.yf);
      0 <= x - b.xi < |crop| && 0 <= y - b.yi < |crop[x - b.xi]| && DilateN(crop, k)[x - b.xi][y - b.yi]
  {
    DilateChain(Crop(g, b.xi, b.xf, b.yi, b.yf), 0, k);
  }

  /** The crop window of island `island`, from its pixels in the label image. */
  function WindowOf(labels: Grid<int>, island: int, npix: int): Box
    requires Present(labels, island)
  {
    PresentHasPixels(labels, island);
    IslandBox(IslandPixels(labels, island), npix)
  }

  /** The window of a label present in a square label image lies in the image. */
  lemma WindowInImage(labels: Grid<int>, island: int, npix: nat)
    requires IsRect(labels, npix, npix) && Present(labels, island)
    ensures var b := WindowOf(labels, island, npix);
      0 <= b.xi <= b.xf <= npix && 0 <= b.yi <= b.yf <= npix
  {
    PresentHasPixels(labels, island);
    PixelsInImage(labels, island, npix);
    IslandBoxInRange(IslandPixels(labels, island), npix);
  }

  /** The mask after the loop body for island `island` on the mask `g`: the
      island's window, with `f0` read from `g`, regrown as often as the
      growth loop decides. */
  function IslandStep(g: Grid<bool>, im: Grid<real>, labels: Grid<int>, island: int, tol: real, diter: int): (r: Grid<bool>)
    requires IsRect(g, |g|, |g|) && IsRect(im, |g|, |g|) && IsRect(labels, |g|, |g|)
    requires Present(labels, island)
    ensures IsRect(r, |g|, |g|)
  {
    var b := WindowOf(labels, island, |g|);
    WindowInImage(labels, island, |g|);
    var crop, iim := Crop(g, b.xi, b.xf, b.yi, b.yf), Crop(im, b.xi, b.xf, b.yi, b.yf);
    var f0 := Flux(iim, crop);
    Regrow(g, b, Dilations(f0, StopCount(iim, crop, f0, tol, diter)))
  }

  /** One island step clears no cell and changes no cell outside the island's window. */
  lemma IslandStepKeeps(g: Grid<bool>, im: Grid<real>, labels: Grid<int>, island: int, tol: real, diter: int)
    requires IsRect(g, |g|, |g|) && IsRect(im, |g|, |g|) && IsRect(labels, |g|, |g|)
    requires Present(labels, island)
    ensures Within(g, IslandStep(g, im, labels, island, tol, diter))
    ensures forall x, y :: 0 <= x < |g| && 0 <= y < |g| && !InBox(WindowOf(labels, island, |g|), x, y) ==>
      IslandStep(g, im, labels, island, tol, diter)[x][y] == g[x][y]
  {
    var b := WindowOf(labels, island, |g|);
    WindowInImage(labels, island, |g|);
    var crop, iim := Crop(g, b.xi, b.xf, b.yi, b.yf), Crop(im, b.xi, b.xf, b.yi, b.yf);
    var f0 := Flux(iim, crop);
    RegrowKeeps(g, b, Dilations(f0, StopCount(iim, crop, f0, tol, diter)));
  }

  /** The mask after the loop over the islands `order`: the island steps in
      turn, each on the mask the previous ones left. */
  function DilateFold(g: Grid<bool>, im: Grid<real>, labels: Grid<int>, order: seq<int>, tol: real, diter: int): (r: Grid<bool>)
    requires IsRect(g, |g|, |g|) && IsRect(im, |g|, |g|) && IsRect(labels, |g|, |g|)
    requires forall k :: 0 <= k < |order| ==> Present(labels, order[k])
    ensures IsRect(r, |g|, |g|)
    decreases |order|
  {
    if |order| == 0 then g
    else
      var prev := DilateFold(g, im, labels, order[..|order| - 1], tol, diter);
      IslandStep(prev, im, labels, order[|order| - 1], tol, diter)
  }

  /** Folding over one more island is one more island step. */
  lemma FoldStep(g: Grid<bool>, im: Grid<real>, labels: Grid<int>, order: seq<int>, k: int, tol: real, diter: int)
    requires IsRect(g, |g|, |g|) && IsRect(im, |g|, |g|) && IsRect(labels, |g|, |g|)
    requires forall k :: 0 <= k < |order| ==> Present(labels, order[k])
    requires 0 <= k < |order|
    ensures DilateFold(g, im, labels, order[..k + 1], tol, diter)
         == IslandStep(DilateFold(g, im, labels, order[..k], tol, diter), im, labels, order[k], tol, diter)
  {
    assert order[..k + 1][..k] == order[..k];
  }

  /** No island window of `order` contains cell `(x, y)`. */
  predicate Untouched(labels: Grid<int>, order: seq<int>, npix: int, x: int, y: int)
    requires forall k :: 0 <= k < |order| ==> Present(labels, order[k])
  {
    forall k :: 0 <= k < |order| ==> !InBox(WindowOf(labels, order[k], npix), x, y)
  }

  /** The loop over the islands clears no cell. */
  lemma {:induction false} DilateFoldGrows(g: Grid<bool>, im: Grid<real>, labels: Grid<int>, order: seq<int>,
                                           tol: real, diter: int)
    requires IsRect(g, |g|, |g|) && IsRect(im, |g|, |g|) && IsRect(labels, |g|, |g|)
    requires forall k :: 0 <= k < |order| ==> Present(labels, order[k])
    ensures Within(g, DilateFold(g, im, labels, order, tol, diter))
  {
    if |order| > 0 {
      var n := |order| - 1;
      var prev := DilateFold(g, im, labels, order[..n], tol, diter);
      var r := IslandStep(prev, im, labels, order[n], tol, diter);
      assert r == DilateFold(g, im, labels, order, tol, diter);
      DilateFoldGrows(g, im, labels, order[..n], tol, diter);
      IslandStepKeeps(prev, im, labels, order[n], tol, diter);
      WithinTransitive(g, prev, r);
    }
  }

  /** A cell outside the windows of `order` is outside the windows of all but
      the last island, and outside the last island's window. */
  lemma UntouchedPrefix(labels: Grid<int>, order: seq<int>, npix: int, x: int, y: int)
    requires forall k :: 0 <= k < |order| ==> Present(labels, order[k])
    requires |order| > 0 && Untouched(labels, order, npix, x, y)
    ensures Untouched(labels, order[..|order| - 1], npix, x, y)
    ensures !InBox(WindowOf(labels, order[|order| - 1], npix), x, y)
  {
    assert forall k :: 0 <= k < |order| - 1 ==> order[..|order| - 1][k] == order[k];
  }

  /** A cell outside every island's window keeps its value through the loop
      over the islands. */
  lemma {:induction false} DilateFoldFrame(g: Grid<bool>, im: Grid<real>, labels: Grid<int>, order: seq<int>,
                                           tol: real, diter: int, x: int, y: int)
    requires IsRect(g, |g|, |g|) && IsRect(im, |g|, |g|) && IsRect(labels, |g|, |g|)
    requires forall k :: 0 <= k < |order| ==> Present(labels, order[k])
    requires 0 <= x < |g| && 0 <= y < |g| && Untouched(labels, order, |g|, x, y)
    ensures DilateFold(g, im, labels, order, tol, diter)[x][y] == g[x][y]
  {
    if |order| > 0 {
      var n := |order| - 1;
      var prev := DilateFold(g, im, labels, order[..n], tol, diter);
      var r := IslandStep(prev, im, labels, order[n], tol, diter);
      assert r == DilateFold(g, im, labels, order, tol, diter);
      UntouchedPrefix(labels, order, |g|, x, y);
      DilateFoldFrame(g, im, labels, order[..n], tol, diter, x, y);
      IslandStepKeeps(prev, im, labels, order[n], tol, diter);
    }
  }

  /** The loop over the islands, in the order `order` in which the set of
      labels is iterated: every island's window is computed from the label
      image, then the island is grown in place. The new mask is the fold of
      the island steps over `order`. */
  method DilateAll(mask: array2<bool>, im: Grid<real>, labels: Grid<int>, order: seq<int>,
                   tol: real, diter: int)
    requires mask.Length0 == mask.Length1
    requires IsRect(im, mask.Length0, mask.Length1) && IsRect(labels, mask.Length0, mask.Length1)
    requires forall k :: 0 <= k < |order| ==> Present(labels, order[k])
    modifies mask
    ensures Snapshot(mask) == DilateFold(old(Snapshot(mask)), im, labels, order, tol, diter)
  {
    ghost var start := Snapshot(mask);
    for k := 0 to |order|
      invariant Snapshot(mask) == DilateFold(start, im, labels, order[..k], tol, diter)
    {
      var b := DilateOne(mask, im, labels, order[k], tol, diter);
      FoldStep(start, im, labels, order, k, tol, diter);
    }
    assert order[..|order|] == order;
  }

  /** The body of the loop over the islands for island `island`: its pixels,
      centre, extent and window, then the growth of the window in place. It
      returns the window; the new mask is the island step on the old one. */
  method DilateOne(mask: array2<bool>, im: Grid<real>, labels: Grid<int>, island: int,
                   tol: real, diter: int)
    returns (b: Box)
    requires mask.Length0 == mask.Length1
    requires IsRect(im, mask.Length0, mask.Length1) && IsRect(labels, mask.Length0, mask.Length1)
    requires Present(labels, island)
    modifies mask
    ensures b == WindowOf(labels, island, mask.Length0)
    ensures Snapshot(mask) == IslandStep(old(Snapshot(mask)), im, labels, island, tol, diter)
  {
    b := IslandWindow(labels, island, mask.Length0);
    ghost var before := Snapshot(mask);
    var counter, n := DilateIsland(mask, im, b, tol, diter);
    ghost var crop, iim := Crop(before, b.xi, b.xf, b.yi, b.yf), Crop(im, b.xi, b.xf, b.yi, b.yf);
    StopsExactly(iim, crop, Flux(iim, crop), tol, diter, counter);
  }

  /** `numpy.where`, `centre`, `extent` and the clipped bounds `rx - size`,
      `rx + size`, `ry - size`, `ry + size` with `size = int(extent * 1.5)`:
      the window of a label present in a square label image, which lies in
      the image. */
  method IslandWindow(labels: Grid<int>, island: int, npix: nat) returns (b: Box)
    requires IsRect(labels, npix, npix)
    requires Present(labels, island)
    ensures b == WindowOf(labels, island, npix)
    ensures 0 <= b.xi <= b.xf <= npix && 0 <= b.yi <= b.yf <= npix
  {
    var px := IslandPixels(labels, island);
    PresentHasPixels(labels, island);
    PixelsInImage(labels, island, npix);
    var (rx, ry) := Centre(px);
    var e := Extent(px);
    var s := HalfWidth(e);
    var (xi, xf) := Bounds(rx, s, npix);
    var (yi, yf) := Bounds(ry, s, npix);
    b := Box(xi, xf, yi, yf);
    IslandBoxInRange(px, npix);
  }
}
