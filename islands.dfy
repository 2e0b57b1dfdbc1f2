/** The geometry of one island before it is dilated: its pixels as
    `numpy.where` lists them, its centre, its extent and the crop window
    around the centre. All of it is computed from the label image, which is
    fixed before any island is dilated. */
module Islands {
  import opened Grids
  import opened Tiling

  /** A (row, column) coordinate. */
  type Pixel = (int, int)

  /** `p` comes before `q` in row-major order. */
  predicate Before(p: Pixel, q: Pixel)
  {
    p.0 < q.0 || (p.0 == q.0 && p.1 < q.1)
  }

  /** The cells of row `x` among the first `n` columns that carry `island`,
      left to right. */
  function RowCells(labels: Grid<int>, island: int, x: int, n: int): (px: seq<Pixel>)
    requires 0 <= x < |labels| && 0 <= n <= |labels[x]|
    ensures forall p :: p in px <==> p.0 == x && 0 <= p.1 < n && labels[x][p.1] == island
    ensures forall a, b :: 0 <= a < b < |px| ==> px[a].1 < px[b].1
    decreases n
  {
    if n == 0 then []
    else RowCells(labels, island, x, n - 1) + if labels[x][n - 1] == island then [(x, n - 1)] else []
  }

  /** The cells of the first `m` rows that carry `island`, in row-major order. */
  function CellsUpTo(labels: Grid<int>, island: int, m: int): (px: seq<Pixel>)
    requires 0 <= m <= |labels|
    ensures forall p :: p in px <==>
      0 <= p.0 < m && 0 <= p.1 < |labels[p.0]| && labels[p.0][p.1] == island
    ensures forall a, b :: 0 <= a < b < |px| ==> Before(px[a], px[b])
  {
    if m == 0 then []
    else
      var prev := CellsUpTo(labels, island, m - 1);
      var row := RowCells(labels, island, m - 1, |labels[m - 1]|);
      assert forall a :: 0 <= a < |prev| ==> prev[a] in prev;
      assert forall b :: 0 <= b < |row| ==> row[b] in row;
      prev + row
  }

  /** `numpy.where(islands == island)`: every cell carrying `island`, each once,
      in row-major order. */
  function IslandPixels(labels: Grid<int>, island: int): (px: seq<Pixel>)
    ensures forall p :: p in px <==>
      0 <= p.0 < |labels| && 0 <= p.1 < |labels[p.0]| && labels[p.0][p.1] == island
    ensures forall a, b :: 0 <= a < b < |px| ==> Before(px[a], px[b])
  {
    CellsUpTo(labels, island, |labels|)
  }

  /** Some cell of the label image carries `island`. */
  predicate Present(labels: Grid<int>, island: int)
  {
    exists x, y :: 0 <= x < |labels| && 0 <= y < |labels[x]| && labels[x][y] == island
  }

  /** A label that occurs in the image has at least one pixel. */
  lemma PresentHasPixels(labels: Grid<int>, island: int)
    requires Present(labels, island)
    ensures |IslandPixels(labels, island)| > 0
  {
    var x, y :| 0 <= x < |labels| && 0 <= y < |labels[x]| && labels[x][y] == island;
    assert (x, y) in IslandPixels(labels, island);
  }

  /** Sum of the row coordinates. */
  function SumRows(px: seq<Pixel>): int
  {
    if |px| == 0 then 0 else SumRows(px[..|px| - 1]) + px[|px| - 1].0
  }

  /** Sum of the column coordinates. */
  function SumCols(px: seq<Pixel>): int
  {
    if |px| == 0 then 0 else SumCols(px[..|px| - 1]) + px[|px| - 1].1
  }

  /** `centre`: the mean row and the mean column, each truncated by `int`. */
  function Centre(px: seq<Pixel>): (c: Pixel)
    requires |px| > 0
    ensures 0 <= SumRows(px) ==> c.0 == SumRows(px) / |px|
    ensures 0 <= SumCols(px) ==> c.1 == SumCols(px) / |px|
  {
    TruncQuotient(SumRows(px), |px|);
    TruncQuotient(SumCols(px), |px|);
    (Trunc(SumRows(px) as real / |px| as real), Trunc(SumCols(px) as real / |px| as real))
  }

  /** Truncating a non-negative quotient is integer division. */
  lemma TruncQuotient(s: int, n: int)
    requires 0 < n
    ensures 0 <= s ==> Trunc(s as real / n as real) == s / n
  {
    var q, m := s / n, s % n;
    var v := s as real / n as real;
    assert s as real == q as real * n as real + m as real;
    assert v == q as real + m as real / n as real;
    assert 0.0 <= m as real / n as real < 1.0;
  }

  /** Every coordinate lies in `[0, npix)`. */
  predicate InImage(px: seq<Pixel>, npix: int)
  {
    forall a :: 0 <= a < |px| ==> 0 <= px[a].0 < npix && 0 <= px[a].1 < npix
  }

  lemma {:induction false} SumBounds(px: seq<Pixel>, npix: int)
    requires InImage(px, npix)
    ensures 0 <= SumRows(px) && 0 <= SumCols(px)
    ensures SumRows(px) <= |px| * (npix - 1) && SumCols(px) <= |px| * (npix - 1)
  {
    if |px| > 0 {
      var n := |px| - 1;
      SumBounds(px[..n], npix);
      assert |px| * (npix - 1) == n * (npix - 1) + (npix - 1);
    }
  }

  /** The centre is the floor of the mean: `c * n <= sum < (c + 1) * n` on each
      axis, and it lies inside the image. */
  lemma CentreIsFloorOfMean(px: seq<Pixel>, npix: int)
    requires |px| > 0 && InImage(px, npix)
    ensures var c, n := Centre(px), |px|;
      c.0 * n <= SumRows(px) < (c.0 + 1) * n && c.1 * n <= SumCols(px) < (c.1 + 1) * n
    ensures 0 <= Centre(px).0 < npix && 0 <= Centre(px).1 < npix
  {
    var n := |px|;
    SumBounds(px, npix);
    TruncQuotient(SumRows(px), n);
    TruncQuotient(SumCols(px), n);
    QuotientBelow(SumRows(px), n, npix);
    QuotientBelow(SumCols(px), n, npix);
  }

  lemma QuotientBelow(s: int, n: int, npix: int)
    requires 0 <= s <= n * (npix - 1) && 0 < n
    ensures (s / n) * n <= s < (s / n + 1) * n
    ensures 0 <= s / n < npix
  {
  }

  // ---------------------------------------------------------------------
  // Extent

  /** Squared Euclidean distance of two pixels. */
  function SqDist(a: Pixel, b: Pixel): nat
  {
    Square(a.0 - b.0) + Square(a.1 - b.1)
  }

  /** `d ** 2`. */
  function Square(d: int): nat
  {
    if d < 0 then (-d) * (-d) else d * d
  }

  /** `r` is the floor square root of `n`. */
  predicate IsFloorSqrt(r: int, n: int)
  {
    Square(r) <= n < Square(r + 1)
  }

  /** `int(rad ** 0.5)` for a non-negative integer `rad`: its floor square root. */
  function ISqrt(n: nat): (r: nat)
    ensures IsFloorSqrt(r, n)
  {
    if n == 0 then 0
    else
      var r := ISqrt(n - 1);
      if Square(r + 1) <= n then r + 1 else r
  }

  /** The radii `extent` appends for `i` and the partners `j` in `[i, hi)`. */
  function RowRadii(px: seq<Pixel>, i: int, hi: int): (r: seq<int>)
    requires 0 <= i <= hi <= |px|
    ensures |r| == hi - i
  {
    seq(hi - i, k requires 0 <= k < hi - i => Radius(px, i, i + k))
  }

  /** `int(rad ** 0.5)` for the pair `(a, b)`. */
  function Radius(px: seq<Pixel>, a: int, b: int): nat
    requires 0 <= a < |px| && 0 <= b < |px|
  {
    ISqrt(SqDist(px[a], px[b]))
  }

  lemma RowRadiiStep(px: seq<Pixel>, i: int, j: int)
    requires 0 <= i <= j < |px|
    ensures RowRadii(px, i, j + 1) == RowRadii(px, i, j) + [Radius(px, i, j)]
  {
    var r, r' := RowRadii(px, i, j), RowRadii(px, i, j + 1);
    assert forall k :: 0 <= k < j - i ==> r'[k] == r[k];
  }

  lemma RowRadiiMembers(px: seq<Pixel>, i: int, v: int)
    requires 0 <= i < |px|
    ensures v in RowRadii(px, i, |px|) <==> exists b :: i <= b < |px| && v == Radius(px, i, b)
  {
    if v in RowRadii(px, i, |px|) {
      RowRadiusOf(px, i, v);
    }
    if exists b :: i <= b < |px| && v == Radius(px, i, b) {
      var b :| i <= b < |px| && v == Radius(px, i, b);
      assert RowRadii(px, i, |px|)[b - i] == v;
    }
  }

  lemma RowRadiusOf(px: seq<Pixel>, i: int, v: int)
    requires 0 <= i < |px| && v in RowRadii(px, i, |px|)
    ensures exists b :: i <= b < |px| && v == Radius(px, i, b)
  {
    var row := RowRadii(px, i, |px|);
    var k :| 0 <= k < |row| && row[k] == v;
    assert v == Radius(px, i, i + k);
  }

  /** The list `r` of `extent` once its outer loop has handled `i < m`. */
  function Radii(px: seq<Pixel>, m: int): (r: seq<int>)
    requires 0 <= m <= |px|
    ensures 0 < m ==> |r| > 0
  {
    if m == 0 then [] else Radii(px, m - 1) + RowRadii(px, m - 1, |px|)
  }

  /** `max(r)` of a non-empty list. */
  function Max(r: seq<int>): (m: int)
    requires |r| > 0
    ensures m in r
    ensures forall k :: 0 <= k < |r| ==> r[k] <= m
  {
    if |r| == 1 then r[0]
    else
      var m := Max(r[..|r| - 1]);
      assert forall k :: 0 <= k < |r| - 1 ==> r[..|r| - 1][k] == r[k];
      if r[|r| - 1] > m then r[|r| - 1] else m
  }

  /** What `extent` returns for an island. */
  function ExtentOf(px: seq<Pixel>): int
    requires |px| > 0
  {
    Max(Radii(px, |px|))
  }

  /** `extent`: the list of the floor square roots of the squared distances of
      all pairs `i <= j`, built by two nested loops, and its maximum. */
  method Extent(px: seq<Pixel>) returns (e: int)
    requires |px| > 0
    ensures e == ExtentOf(px)
  {
    var n := |px|;
    var r: seq<int> := [];
    for i := 0 to n
      invariant r == Radii(px, i)
    {
      for j := i to n
        invariant r == Radii(px, i) + RowRadii(px, i, j)
      {
        var a, b := px[i], px[j];
        var rad := Square(a.0 - b.0) + Square(a.1 - b.1);
        RowRadiiStep(px, i, j);
        r := r + [ISqrt(rad)];
      }
    }
    e := Max(r);
  }

  /** The entries of the list are exactly the radii of the pairs `a <= b`
      with `a < m`. */
  lemma {:induction false} RadiiMembers(px: seq<Pixel>, m: int, v: int)
    requires 0 <= m <= |px|
    ensures v in Radii(px, m) <==> exists a, b :: 0 <= a < m && a <= b < |px| && v == Radius(px, a, b)
  {
    if m > 0 {
      RadiiMembers(px, m - 1, v);
      RowRadiiMembers(px, m - 1, v);
    }
  }

  lemma SquareMonotone(r: int, e: int)
    requires 0 <= r <= e
    ensures Square(r) <= Square(e)
  {
  }

  /** The extent is the floor square root of the largest squared distance
      between two pixels of the island: some pair is at least `e` apart, and
      every pair is closer than `e + 1`. */
  lemma ExtentIsFloorSqrtOfMax(px: seq<Pixel>)
    requires |px| > 0
    ensures 0 <= ExtentOf(px)
    ensures exists a, b :: (0 <= a < |px| && 0 <= b < |px| &&
      Square(ExtentOf(px)) <= SqDist(px[a], px[b]))
    ensures forall a, b :: 0 <= a < |px| && 0 <= b < |px| ==>
      SqDist(px[a], px[b]) < Square(ExtentOf(px) + 1)
  {
    ExtentAttained(px);
    ExtentBoundsAllPairs(px);
  }

  lemma ExtentAttained(px: seq<Pixel>)
    requires |px| > 0
    ensures 0 <= ExtentOf(px)
    ensures exists a, b :: (0 <= a < |px| && 0 <= b < |px| &&
      Square(ExtentOf(px)) <= SqDist(px[a], px[b]))
  {
    var e := ExtentOf(px);
    RadiiMembers(px, |px|, e);
    var a, b :| 0 <= a < |px| && a <= b < |px| && e == Radius(px, a, b);
    assert IsFloorSqrt(e, SqDist(px[a], px[b]));
  }

  lemma ExtentBoundsAllPairs(px: seq<Pixel>)
    requires |px| > 0
    ensures forall a, b :: 0 <= a < |px| && 0 <= b < |px| ==>
      SqDist(px[a], px[b]) < Square(ExtentOf(px) + 1)
  {
    var e := ExtentOf(px);
    forall a', b' | 0 <= a' < |px| && 0 <= b' < |px|
      ensures SqDist(px[a'], px[b']) < Square(e + 1)
    {
      var lo, hi := if a' <= b' then a' else b', if a' <= b' then b' else a';
      assert SqDist(px[a'], px[b']) == SqDist(px[lo], px[hi]);
      RadiiMembers(px, |px|, Radius(px, lo, hi));
      RadiusBelow(px, lo, hi, e);
    }
  }

  /** A pair whose radius is at most `e` is closer than `e + 1`. */
  lemma RadiusBelow(px: seq<Pixel>, a: int, b: int, e: int)
    requires 0 <= a < |px| && 0 <= b < |px| && Radius(px, a, b) <= e
    ensures SqDist(px[a], px[b]) < Square(e + 1)
  {
    var v := Radius(px, a, b);
    assert IsFloorSqrt(v, SqDist(px[a], px[b]));
    SquareMonotone(v + 1, e + 1);
  }

  /** A single pixel has extent 0. */
  lemma SinglePixelExtent(p: Pixel)
    ensures ExtentOf([p]) == 0
  {
    assert Radii([p], 1) == [Radius([p], 0, 0)];
  }

  // ---------------------------------------------------------------------
  // Crop window

  /** The rectangle `[xi, xf) x [yi, yf)` of a crop. */
  datatype Box = Box(xi: int, xf: int, yi: int, yf: int)

  predicate InBox(b: Box, x: int, y: int)
  {
    b.xi <= x < b.xf && b.yi <= y < b.yf
  }

  /** `int(extent * 1.5)`: for a non-negative extent, `(3 * extent) / 2`. */
  function HalfWidth(e: int): (s: int)
    ensures 0 <= e ==> s == (3 * e) / 2
  {
    TruncQuotient(3 * e, 2);
    assert e as real * 1.5 == (3 * e) as real / 2 as real;
    Trunc(e as real * 1.5)
  }

  /** `c - s` and `c + s`, the lower end raised to 0, the upper lowered to `npix`. */
  function Bounds(c: int, s: int, npix: int): (int, int)
  {
    (if c - s < 0 then 0 else c - s, if c + s > npix then npix else c + s)
  }

  /** The crop window of an island in an `npix x npix` image. */
  function IslandBox(px: seq<Pixel>, npix: int): Box
    requires |px| > 0
  {
    var c := Centre(px);
    var s := HalfWidth(ExtentOf(px));
    var (xi, xf) := Bounds(c.0, s, npix);
    var (yi, yf) := Bounds(c.1, s, npix);
    Box(xi, xf, yi, yf)
  }

  /** The window is `[c - s, c + s)` on each axis with `s = (3 * extent) / 2`,
      clipped so that `0 <= lo <= hi <= npix`. */
  lemma IslandBoxInRange(px: seq<Pixel>, npix: int)
    requires |px| > 0 && InImage(px, npix)
    ensures var b, c, s := IslandBox(px, npix), Centre(px), (3 * ExtentOf(px)) / 2;
      b.xi == (if c.0 - s < 0 then 0 else c.0 - s) && b.xf == (if c.0 + s > npix then npix else c.0 + s) &&
      b.yi == (if c.1 - s < 0 then 0 else c.1 - s) && b.yf == (if c.1 + s > npix then npix else c.1 + s)
    ensures var b := IslandBox(px, npix);
      0 <= b.xi <= b.xf <= npix && 0 <= b.yi <= b.yf <= npix
  {
    CentreIsFloorOfMean(px, npix);
    ExtentIsFloorSqrtOfMax(px);
  }

  /** A single-pixel island has an empty window: nothing is written for it. */
  lemma SinglePixelEmptyWindow(p: Pixel, npix: int)
    requires 0 <= p.0 < npix && 0 <= p.1 < npix
    ensures var b := IslandBox([p], npix); b.xi == b.xf && b.yi == b.yf
    ensures forall x, y :: !InBox(IslandBox([p], npix), x, y)
  {
    SinglePixelExtent(p);
    CentreIsFloorOfMean([p], npix);
    assert SumRows([p]) == p.0 && SumCols([p]) == p.1;
  }

  /** The pixels of a island in a square island image lie in the image. */
  lemma PixelsInImage(labels: Grid<int>, island: int, npix: int)
    requires IsRect(labels, npix, npix)
    ensures InImage(IslandPixels(labels, island), npix)
  {
    var px := IslandPixels(labels, island);
    forall a | 0 <= a < |px| ensures 0 <= px[a].0 < npix && 0 <= px[a].1 < npix {
      assert px[a] in px;
    }
  }
}
