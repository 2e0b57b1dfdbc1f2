/** Two-dimensional grids (the numpy arrays of the program) and rectangular
    patches of a grid, together with the one in-place write the program
    performs on its mask: `mask[xi:xf, yi:yf] = cells`. */
module Grids {

  /** A 2-D array, as a sequence of rows. */
  type Grid<T> = seq<seq<T>>

  /** `g` has `rows` rows of `cols` entries each. */
  predicate IsRect<T>(g: Grid<T>, rows: int, cols: int)
  {
    |g| == rows && forall x :: 0 <= x < |g| ==> |g[x]| == cols
  }

  /** `a` and `b` have the same number of rows and the same row lengths. */
  predicate SameShape<T, U>(a: Grid<T>, b: Grid<U>)
  {
    |a| == |b| && forall x :: 0 <= x < |a| ==> |a[x]| == |b[x]|
  }

  /** The larger of two integers. */
  function MaxInt(a: int, b: int): (m: int)
    ensures m >= a && m >= b && (m == a || m == b)
  {
    if a < b then b else a
  }

  /** Cell `(x, y)` exists in `m` and is set. */
  predicate At(m: Grid<bool>, x: int, y: int)
  {
    0 <= x < |m| && 0 <= y < |m[x]| && m[x][y]
  }

  /** Number of indices a slice `lo:hi` selects once both ends lie in range. */
  function Width(lo: int, hi: int): nat
  {
    if lo < hi then hi - lo else 0
  }

  /** `g[xi:xf, yi:yf]`, for ends that have already been clipped to the grid. */
  function Crop<T>(g: Grid<T>, xi: int, xf: int, yi: int, yf: int): (c: Grid<T>)
    requires 0 <= xi && xf <= |g|
    requires 0 <= yi && forall x :: 0 <= x < |g| ==> yf <= |g[x]|
    ensures IsRect(c, Width(xi, xf), Width(yi, yf))
    ensures forall a, b :: 0 <= a < |c| && 0 <= b < |c[a]| ==> c[a][b] == g[xi + a][yi + b]
  {
    seq(Width(xi, xf), a requires 0 <= a < Width(xi, xf) =>
      seq(Width(yi, yf), b requires 0 <= b < Width(yi, yf) => g[xi + a][yi + b]))
  }

  /** Cropping a square grid to its full extent gives the grid back. */
  lemma CropWhole<T>(g: Grid<T>, n: nat)
    requires IsRect(g, n, n)
    ensures Crop(g, 0, n, 0, n) == g
  {
    var c := Crop(g, 0, n, 0, n);
    forall x | 0 <= x < n
      ensures c[x] == g[x]
    {
    }
  }

  /** Cell-wise OR of two masks of one shape (numpy's `+=` on boolean arrays). */
  function Or(a: Grid<bool>, b: Grid<bool>): (r: Grid<bool>)
    requires SameShape(a, b)
    ensures SameShape(r, a)
    ensures forall x, y :: 0 <= x < |r| && 0 <= y < |r[x]| ==> r[x][y] == (a[x][y] || b[x][y])
  {
    seq(|a|, x requires 0 <= x < |a| =>
      seq(|a[x]|, y requires 0 <= y < |a[x]| => a[x][y] || b[x][y]))
  }

  /** The contents of a 2-D array, as a grid. */
  function Snapshot<T>(m: array2<T>): (g: Grid<T>)
    reads m
    ensures IsRect(g, m.Length0, m.Length1)
    ensures forall x, y :: 0 <= x < m.Length0 && 0 <= y < m.Length1 ==> g[x][y] == m[x, y]
  {
    seq(m.Length0, x requires 0 <= x < m.Length0 reads m =>
      seq(m.Length1, y requires 0 <= y < m.Length1 reads m => m[x, y]))
  }

  /** A rectangle `[xi, xf) x [yi, yf)` together with the values to store in it. */
  datatype Patch = Patch(xi: int, xf: int, yi: int, yf: int, cells: Grid<bool>)

  /** The patch's rectangle contains cell `(x, y)`. */
  predicate Covers(p: Patch, x: int, y: int)
  {
    p.xi <= x < p.xf && p.yi <= y < p.yf
  }

  /** The patch's values have exactly the shape of its rectangle. */
  predicate WellShaped(p: Patch)
  {
    IsRect(p.cells, Width(p.xi, p.xf), Width(p.yi, p.yf))
  }

  /** The rectangle lies inside a `rows x cols` array and the values fit it. */
  predicate Fits(p: Patch, rows: int, cols: int)
  {
    0 <= p.xi && p.xf <= rows && 0 <= p.yi && p.yf <= cols && WellShaped(p)
  }

  /** The value the patch holds for a cell of its rectangle. */
  function ValueAt(p: Patch, x: int, y: int): bool
    requires WellShaped(p) && Covers(p, x, y)
  {
    p.cells[x - p.xi][y - p.yi]
  }

  /** `g` with the patch's rectangle replaced by the patch's values. */
  function Paste(g: Grid<bool>, p: Patch): (r: Grid<bool>)
    requires WellShaped(p) && forall x :: 0 <= x < |g| ==> Fits(p, |g|, |g[x]|)
    ensures SameShape(r, g)
    ensures forall x, y :: 0 <= x < |r| && 0 <= y < |r[x]| ==>
      r[x][y] == if Covers(p, x, y) then ValueAt(p, x, y) else g[x][y]
  {
    seq(|g|, x requires 0 <= x < |g| =>
      seq(|g[x]|, y requires 0 <= y < |g[x]| => if Covers(p, x, y) then ValueAt(p, x, y) else g[x][y]))
  }

  /** `mask[xi:xf, yi:yf] = cells`: the cells of the rectangle take the
      patch's values and every other cell keeps its value. */
  method WritePatch(mask: array2<bool>, p: Patch)
    requires Fits(p, mask.Length0, mask.Length1)
    modifies mask
    ensures forall x, y :: 0 <= x < mask.Length0 && 0 <= y < mask.Length1 ==>
      mask[x, y] == if Covers(p, x, y) then ValueAt(p, x, y) else old(mask[x, y])
    ensures Snapshot(mask) == Paste(old(Snapshot(mask)), p)
  {
    ghost var before := Snapshot(mask);
    var rows, cols := Width(p.xi, p.xf), Width(p.yi, p.yf);
    for a := 0 to rows
      invariant forall x, y :: 0 <= x < mask.Length0 && 0 <= y < mask.Length1 ==>
        mask[x, y] == if Covers(p, x, y) && x < p.xi + a then ValueAt(p, x, y) else old(mask[x, y])
    {
      for b := 0 to cols
        invariant forall x, y :: 0 <= x < mask.Length0 && 0 <= y < mask.Length1 ==>
          mask[x, y] == if Covers(p, x, y) && (x < p.xi + a || (x == p.xi + a && y < p.yi + b))
                        then ValueAt(p, x, y) else old(mask[x, y])
      {
        mask[p.xi + a, p.yi + b] := p.cells[a][b];
      }
    }
    ghost var after, pasted := Snapshot(mask), Paste(before, p);
    forall x | 0 <= x < mask.Length0
      ensures after[x] == pasted[x]
    {
    }
  }
}
