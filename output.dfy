/** The two-valued output: the finalization that gives every unmasked cell
    the fill value, and the peak-fraction mode that thresholds the whole
    image at a fraction of its maximum. */
module Output {
  import opened Grids

  /** A cell of the written mask: `On` is `1.0`, `Fill` is the configured
      `mask_value` (0, a number or NaN). */
  datatype Cell = On | Fill

  /** `mask[mask == 0] = mask_value`: every unset cell becomes the fill value
      and every set cell stays `1.0`, so the output holds only those two values. */
  method Finalize(mask: array2<bool>) returns (out: array2<Cell>)
    ensures fresh(out) && out.Length0 == mask.Length0 && out.Length1 == mask.Length1
    ensures forall x, y :: 0 <= x < out.Length0 && 0 <= y < out.Length1 ==>
      (out[x, y] == On <==> mask[x, y]) && (out[x, y] == Fill <==> !mask[x, y])
  {
    out := new Cell[mask.Length0, mask.Length1];
    for x := 0 to mask.Length0
      invariant forall x', y :: 0 <= x' < x && 0 <= y < mask.Length1 ==>
        out[x', y] == if mask[x', y] then On else Fill
    {
      for y := 0 to mask.Length1
        invariant forall x', y' ::
          0 <= x' < mask.Length0 && 0 <= y' < mask.Length1 && (x' < x || (x' == x && y' < y)) ==>
          out[x', y'] == if mask[x', y'] then On else Fill
      {
        out[x, y] := if mask[x, y] then On else Fill;
      }
    }
  }

  /** Every row is non-empty, and there is at least one. */
  predicate NonEmpty(im: Grid<real>)
  {
    |im| > 0 && forall x :: 0 <= x < |im| ==> |im[x]| > 0
  }

  /** The largest entry of a non-empty row. */
  function RowMax(row: seq<real>): (m: real)
    requires |row| > 0
    ensures exists y :: 0 <= y < |row| && row[y] == m
    ensures forall y :: 0 <= y < |row| ==> row[y] <= m
  {
    if |row| == 1 then row[0]
    else
      var m := RowMax(row[..|row| - 1]);
      assert forall y :: 0 <= y < |row| - 1 ==> row[..|row| - 1][y] == row[y];
      if row[|row| - 1] > m then row[|row| - 1] else m
  }

  /** `im.max()`: an entry of the image that no entry exceeds. */
  function Peak(im: Grid<real>): (p: real)
    requires NonEmpty(im)
    ensures exists x, y :: 0 <= x < |im| && 0 <= y < |im[x]| && im[x][y] == p
    ensures forall x, y :: 0 <= x < |im| && 0 <= y < |im[x]| ==> im[x][y] <= p
  {
    var last := RowMax(im[|im| - 1]);
    if |im| == 1 then last
    else
      var prefix := im[..|im| - 1];
      assert forall x :: 0 <= x < |im| - 1 ==> prefix[x] == im[x];
      var m := Peak(prefix);
      if last > m then last else m
  }

  /** The cells above `level` are `On`, every other cell is the fill value. */
  function Threshold(im: Grid<real>, level: real): (g: Grid<Cell>)
    ensures SameShape(g, im)
    ensures forall x, y :: 0 <= x < |g| && 0 <= y < |g[x]| ==>
      (g[x][y] == On <==> im[x][y] > level) && (g[x][y] == Fill <==> !(im[x][y] > level))
  {
    seq(|im|, x requires 0 <= x < |im| =>
      seq(|im[x]|, y requires 0 <= y < |im[x]| => if im[x][y] > level then On else Fill))
  }

  /** `peak * peak_fraction`. */
  function Level(peak: real, pf: real): real
  {
    peak * pf
  }

  /** `(im > peak * peak_fraction)` with the zero cells then set to `mask_value`:
      a cell is `On` exactly when its pixel is above `peak * pf`. */
  function PeakMask(im: Grid<real>, pf: real): (g: Grid<Cell>)
    requires NonEmpty(im)
    ensures SameShape(g, im)
    ensures forall x, y :: 0 <= x < |g| && 0 <= y < |g[x]| ==> (g[x][y] == On <==> im[x][y] > Level(Peak(im), pf))
  {
    Threshold(im, Level(Peak(im), pf))
  }

  /** With a non-negative peak and a fraction of at least 1 no pixel exceeds
      the threshold, so no cell is masked. */
  lemma NoCellAboveFullPeak(im: Grid<real>, pf: real)
    requires NonEmpty(im) && Peak(im) >= 0.0 && pf >= 1.0
    ensures forall x, y :: 0 <= x < |im| && 0 <= y < |im[x]| ==> PeakMask(im, pf)[x][y] == Fill
  {
    var p := Peak(im);
    assert p <= Level(p, pf) by {
      assert p * pf - p == p * (pf - 1.0);
    }
  }

  /** With a positive peak and a fraction below 1 the peak pixel is masked. */
  lemma PeakPixelMasked(im: Grid<real>, pf: real)
    requires NonEmpty(im) && Peak(im) > 0.0 && pf < 1.0
    ensures exists x, y :: 0 <= x < |im| && 0 <= y < |im[x]| && PeakMask(im, pf)[x][y] == On
  {
    var p := Peak(im);
    var x, y :| 0 <= x < |im| && 0 <= y < |im[x]| && im[x][y] == p;
    LevelBelowPeak(p, pf);
    assert PeakMask(im, pf)[x][y] == On;
  }

  lemma LevelBelowPeak(p: real, pf: real)
    requires 0.0 < p && pf < 1.0
    ensures Level(p, pf) < p
  {
    assert 0.0 < p * (1.0 - pf);
    assert p - p * pf == p * (1.0 - pf);
  }

  /** Raising the fraction never adds a masked cell when the peak is not
      negative. */
  lemma PeakMaskShrinks(im: Grid<real>, pf: real, pf': real, x: int, y: int)
    requires NonEmpty(im) && Peak(im) >= 0.0 && pf <= pf'
    requires 0 <= x < |im| && 0 <= y < |im[x]|
    ensures PeakMask(im, pf')[x][y] == On ==> PeakMask(im, pf)[x][y] == On
  {
    var p := Peak(im);
    assert Level(p, pf) <= Level(p, pf') by {
      assert p * pf' - p * pf == p * (pf' - pf);
    }
  }

  /** With peak 100 and fraction 0.5, a pixel of 60 is masked and a pixel of 40
      gets the fill value. */
  lemma HalfPeakScenario()
    ensures PeakMask([[100.0, 60.0, 40.0]], 0.5) == [[On, On, Fill]]
  {
    var im := [[100.0, 60.0, 40.0]];
    assert Peak(im) == 100.0 by {
      assert im[0][0] == 100.0;
    }
    assert Level(100.0, 0.5) == 50.0;
    var g := Threshold(im, 50.0);
    assert g[0] == [On, On, Fill];
  }
}
