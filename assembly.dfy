/** Mask assembly: a zero-filled mask is overwritten, entry by entry, with
    the tile masks of the rows in the order their futures complete; then the
    cells whose pixel is negative are cleared. */
module Assembly {
  import opened Grids
  import opened Tiling

  /** Every entry's patch lies inside the `npix x npix` mask and has the shape
      of its box. */
  predicate AllFit(rs: seq<TileResult>, npix: int)
  {
    forall k :: 0 <= k < |rs| ==> Fits(rs[k].patch, npix, npix)
  }

  /** The entries in the order they are written: the rows in completion
      order `order`, each row's entries in `j` order. */
  function Completed(rows: seq<seq<TileResult>>, order: seq<int>): seq<TileResult>
    requires forall k :: 0 <= k < |order| ==> 0 <= order[k] < |rows|
  {
    if |order| == 0 then []
    else Completed(rows, order[..|order| - 1]) + rows[order[|order| - 1]]
  }

  /** The value of cell `(x, y)` after the entries `rs` have been written, in
      that order, over a zero-filled mask. */
  function CellAfter(rs: seq<TileResult>, x: int, y: int): (v: bool)
    requires forall k :: 0 <= k < |rs| ==> WellShaped(rs[k].patch)
    ensures v ==> exists k :: 0 <= k < |rs| && Covers(rs[k].patch, x, y) && ValueAt(rs[k].patch, x, y)
  {
    if |rs| == 0 then false
    else
      var last := rs[|rs| - 1].patch;
      if Covers(last, x, y) then ValueAt(last, x, y) else CellAfter(rs[..|rs| - 1], x, y)
  }

  /** `mask = numpy.zeros(...)` followed by `mask[imslice] = submask` for
      every entry, in order. */
  method Assemble(npix: nat, rs: seq<TileResult>) returns (mask: array2<bool>)
    requires AllFit(rs, npix)
    ensures fresh(mask) && mask.Length0 == npix && mask.Length1 == npix
    ensures forall x, y :: 0 <= x < npix && 0 <= y < npix ==> mask[x, y] == CellAfter(rs, x, y)
  {
    mask := new bool[npix, npix]((_, _) => false);
    for t := 0 to |rs|
      invariant forall x, y :: 0 <= x < npix && 0 <= y < npix ==> mask[x, y] == CellAfter(rs[..t], x, y)
    {
      WritePatch(mask, rs[t].patch);
      assert rs[..t + 1][..t] == rs[..t];
    }
    assert rs[..|rs|] == rs;
  }

  /** `mask[im < 0] = 0`: exactly the cells whose pixel is negative are
      cleared; every other cell keeps its value. */
  method SuppressNegatives(mask: array2<bool>, im: Grid<real>)
    requires IsRect(im, mask.Length0, mask.Length1)
    modifies mask
    ensures forall x, y :: 0 <= x < mask.Length0 && 0 <= y < mask.Length1 ==>
      mask[x, y] == (old(mask[x, y]) && !(im[x][y] < 0.0))
  {
    for x := 0 to mask.Length0
      invariant forall a, b :: 0 <= a < mask.Length0 && 0 <= b < mask.Length1 ==>
        mask[a, b] == if a < x then old(mask[a, b]) && !(im[a][b] < 0.0) else old(mask[a, b])
    {
      for y := 0 to mask.Length1
        invariant forall a, b :: 0 <= a < mask.Length0 && 0 <= b < mask.Length1 ==>
          mask[a, b] == if a < x || (a == x && b < y) then old(mask[a, b]) && !(im[a][b] < 0.0)
                        else old(mask[a, b])
      {
        if im[x][y] < 0.0 {
          mask[x, y] := false;
        }
      }
    }
  }

  // ---------------------------------------------------------------------
  // Last writer wins

  /** A cell that no entry covers stays 0. */
  lemma {:induction false} UncoveredStaysZero(rs: seq<TileResult>, x: int, y: int)
    requires forall k :: 0 <= k < |rs| ==> WellShaped(rs[k].patch)
    requires forall k :: 0 <= k < |rs| ==> !Covers(rs[k].patch, x, y)
    ensures !CellAfter(rs, x, y)
  {
    if |rs| > 0 {
      UncoveredStaysZero(rs[..|rs| - 1], x, y);
    }
  }

  /** A covered cell holds the value of the last entry that covers it. */
  lemma {:induction false} LastWriterWins(rs: seq<TileResult>, x: int, y: int, k: int)
    requires forall k :: 0 <= k < |rs| ==> WellShaped(rs[k].patch)
    requires 0 <= k < |rs| && Covers(rs[k].patch, x, y)
    requires forall k' :: k < k' < |rs| ==> !Covers(rs[k'].patch, x, y)
    ensures CellAfter(rs, x, y) == ValueAt(rs[k].patch, x, y)
  {
    if k < |rs| - 1 {
      LastWriterWins(rs[..|rs| - 1], x, y, k);
    }
  }

  // ---------------------------------------------------------------------
  // Order independence when the covering entries agree

  /** Every entry that covers `(x, y)` holds the same value there. */
  predicate Agree(rs: seq<TileResult>, x: int, y: int)
    requires forall k :: 0 <= k < |rs| ==> WellShaped(rs[k].patch)
  {
    forall k, k' :: 0 <= k < |rs| && 0 <= k' < |rs|
      && Covers(rs[k].patch, x, y) && Covers(rs[k'].patch, x, y)
      ==> ValueAt(rs[k].patch, x, y) == ValueAt(rs[k'].patch, x, y)
  }

  /** Some entry covers `(x, y)` and holds 1 there. */
  predicate SomeWriterSets(rs: seq<TileResult>, x: int, y: int)
    requires forall k :: 0 <= k < |rs| ==> WellShaped(rs[k].patch)
  {
    exists k :: 0 <= k < |rs| && Covers(rs[k].patch, x, y) && ValueAt(rs[k].patch, x, y)
  }

  /** When the covering entries agree, the assembled cell does not depend on
      the order of writing: it is set iff some entry sets it. */
  lemma {:induction false} AgreeingWritersCommute(rs: seq<TileResult>, x: int, y: int)
    requires forall k :: 0 <= k < |rs| ==> WellShaped(rs[k].patch)
    requires Agree(rs, x, y)
    ensures CellAfter(rs, x, y) == SomeWriterSets(rs, x, y)
  {
    if |rs| > 0 {
      var init := rs[..|rs| - 1];
      assert Agree(init, x, y) by {
        forall k, k' | 0 <= k < |init| && 0 <= k' < |init|
          && Covers(init[k].patch, x, y) && Covers(init[k'].patch, x, y)
          ensures ValueAt(init[k].patch, x, y) == ValueAt(init[k'].patch, x, y)
        {
          assert init[k] == rs[k] && init[k'] == rs[k'];
        }
      }
      AgreeingWritersCommute(init, x, y);
      var last := rs[|rs| - 1];
      if Covers(last.patch, x, y) {
        if SomeWriterSets(rs, x, y) {
          var k :| 0 <= k < |rs| && Covers(rs[k].patch, x, y) && ValueAt(rs[k].patch, x, y);
          assert ValueAt(last.patch, x, y) == ValueAt(rs[k].patch, x, y);
        }
      } else {
        if SomeWriterSets(rs, x, y) {
          var k :| 0 <= k < |rs| && Covers(rs[k].patch, x, y) && ValueAt(rs[k].patch, x, y);
          assert init[k] == rs[k];
        }
        if SomeWriterSets(init, x, y) {
          var k :| 0 <= k < |init| && Covers(init[k].patch, x, y) && ValueAt(init[k].patch, x, y);
          assert init[k] == rs[k];
        }
      }
    }
  }

  /** Two write orders of the same entries give the same cell, provided the
      entries that cover it agree. */
  lemma SameEntriesSameCell(rs: seq<TileResult>, ps: seq<TileResult>, x: int, y: int)
    requires forall k :: 0 <= k < |rs| ==> WellShaped(rs[k].patch)
    requires forall r :: r in rs <==> r in ps
    requires Agree(rs, x, y)
    ensures forall k :: 0 <= k < |ps| ==> WellShaped(ps[k].patch)
    ensures CellAfter(rs, x, y) == CellAfter(ps, x, y)
  {
    assert forall k :: 0 <= k < |ps| ==> WellShaped(ps[k].patch) by {
      forall k | 0 <= k < |ps| ensures WellShaped(ps[k].patch) {
        assert ps[k] in rs;
      }
    }
    assert Agree(ps, x, y) by {
      forall k, k' | 0 <= k < |ps| && 0 <= k' < |ps|
        && Covers(ps[k].patch, x, y) && Covers(ps[k'].patch, x, y)
        ensures ValueAt(ps[k].patch, x, y) == ValueAt(ps[k'].patch, x, y)
      {
        assert ps[k] in rs && ps[k'] in rs;
        var a :| 0 <= a < |rs| && rs[a] == ps[k];
        var b :| 0 <= b < |rs| && rs[b] == ps[k'];
      }
    }
    AgreeingWritersCommute(rs, x, y);
    AgreeingWritersCommute(ps, x, y);
    if SomeWriterSets(rs, x, y) {
      var k :| 0 <= k < |rs| && Covers(rs[k].patch, x, y) && ValueAt(rs[k].patch, x, y);
      assert rs[k] in ps;
      var k' :| 0 <= k' < |ps| && ps[k'] == rs[k];
    }
    if SomeWriterSets(ps, x, y) {
      var k :| 0 <= k < |ps| && Covers(ps[k].patch, x, y) && ValueAt(ps[k].patch, x, y);
      assert ps[k] in rs;
      var k' :| 0 <= k' < |rs| && rs[k'] == ps[k];
    }
  }

  // ---------------------------------------------------------------------
  // The tiled pipeline with no overlap

  /** The rows as `work` returns them: row `i` holds `Entry(i, j)` for every `j`. */
  ghost predicate RowsOfWork(rows: seq<seq<TileResult>>, c: TileConfig, im: Grid<real>,
                             clip: Clip, smooth: Smooth)
    requires IsRect(im, c.npix, c.npix)
    requires ClipKeepsShape(clip) && SmoothKeepsShape(smooth)
  {
    |rows| == c.boxes
    && forall i :: 0 <= i < |rows| ==>
         |rows[i]| == c.boxes
         && forall j :: 0 <= j < |rows[i]| ==> rows[i][j] == Entry(i, j, c, im, clip, smooth)
  }

  /** An entry is in the completed sequence iff it is an entry of a row
      listed in the completion order. */
  lemma {:induction false} CompletedMembers(rows: seq<seq<TileResult>>, order: seq<int>, r: TileResult)
    requires forall k :: 0 <= k < |order| ==> 0 <= order[k] < |rows|
    ensures r in Completed(rows, order)
        <==> exists o, j :: o in order && 0 <= o < |rows| && 0 <= j < |rows[o]| && r == rows[o][j]
  {
    if |order| > 0 {
      var init := order[..|order| - 1];
      var o := order[|order| - 1];
      CompletedMembers(rows, init, r);
      assert order == init + [o];
      if r in rows[o] {
        var j :| 0 <= j < |rows[o]| && rows[o][j] == r;
      }
      if exists o', j :: o' in order && 0 <= o' < |rows| && 0 <= j < |rows[o']| && r == rows[o'][j] {
        var o', j :| o' in order && 0 <= o' < |rows| && 0 <= j < |rows[o']| && r == rows[o'][j];
        if o' != o {
          assert o' in init;
        }
      }
    }
  }

  /** With no overlap, two boxes with different grid coordinates share no cell. */
  lemma ZeroOverlapDisjoint(c: TileConfig, im: Grid<real>, clip: Clip, smooth: Smooth,
                            i: int, j: int, i': int, j': int, x: int, y: int)
    requires IsRect(im, c.npix, c.npix)
    requires ClipKeepsShape(clip) && SmoothKeepsShape(smooth)
    requires 0 < c.boxes && c.overlap == 0 && c.size == c.npix as real / c.boxes as real
    requires 0 <= i < c.boxes && 0 <= j < c.boxes && 0 <= i' < c.boxes && 0 <= j' < c.boxes
    requires (i, j) != (i', j')
    ensures !(Covers(Entry(i, j, c, im, clip, smooth).patch, x, y)
              && Covers(Entry(i', j', c, im, clip, smooth).patch, x, y))
  {
    if i < i' {
      ZeroOverlapOrdered(i, i', c.boxes, c.npix, c.size);
    } else if i' < i {
      ZeroOverlapOrdered(i', i, c.boxes, c.npix, c.size);
    } else if j < j' {
      ZeroOverlapOrdered(j, j', c.boxes, c.npix, c.size);
    } else {
      ZeroOverlapOrdered(j', j, c.boxes, c.npix, c.size);
    }
  }

  /** With no overlap, every cell of the `npix x npix` mask lies in the box
      of some grid position `(i, j)`. */
  lemma ZeroOverlapCoversCell(c: TileConfig, im: Grid<real>, clip: Clip, smooth: Smooth, x: int, y: int)
    requires IsRect(im, c.npix, c.npix)
    requires ClipKeepsShape(clip) && SmoothKeepsShape(smooth)
    requires 0 < c.boxes && c.overlap == 0 && c.size == c.npix as real / c.boxes as real
    requires 0 <= x < c.npix && 0 <= y < c.npix
    ensures exists i, j :: 0 <= i < c.boxes && 0 <= j < c.boxes
                           && Covers(Entry(i, j, c, im, clip, smooth).patch, x, y)
  {
    ZeroOverlapCovers(x, c.boxes, c.npix, c.size);
    var i :| 0 <= i < c.boxes && InSpan(x, i, c.size, c.npix);
    ZeroOverlapCovers(y, c.boxes, c.npix, c.size);
    var j :| 0 <= j < c.boxes && InSpan(y, j, c.size, c.npix);
    assert Covers(Entry(i, j, c, im, clip, smooth).patch, x, y);
  }

  /** With no overlap and every row completed, each cell of the mask is
      covered by exactly one written entry. */
  lemma ZeroOverlapCoveredOnce(rows: seq<seq<TileResult>>, order: seq<int>,
                               c: TileConfig, im: Grid<real>, clip: Clip, smooth: Smooth, x: int, y: int)
    requires IsRect(im, c.npix, c.npix)
    requires ClipKeepsShape(clip) && SmoothKeepsShape(smooth)
    requires 0 < c.boxes && c.overlap == 0 && c.size == c.npix as real / c.boxes as real
    requires RowsOfWork(rows, c, im, clip, smooth)
    requires forall k :: 0 <= k < |order| ==> 0 <= order[k] < |rows|
    requires forall i :: 0 <= i < c.boxes ==> i in order
    requires 0 <= x < c.npix && 0 <= y < c.npix
    ensures exists r :: r in Completed(rows, order) && Covers(r.patch, x, y)
    ensures forall r, r' ::
              r in Completed(rows, order) && r' in Completed(rows, order)
              && Covers(r.patch, x, y) && Covers(r'.patch, x, y)
              ==> r == r'
  {
    ZeroOverlapCoversCell(c, im, clip, smooth, x, y);
    var i, j :| 0 <= i < c.boxes && 0 <= j < c.boxes && Covers(Entry(i, j, c, im, clip, smooth).patch, x, y);
    CompletedMembers(rows, order, rows[i][j]);
    assert rows[i][j] in Completed(rows, order);
    forall r, r' | r in Completed(rows, order) && r' in Completed(rows, order)
      && Covers(r.patch, x, y) && Covers(r'.patch, x, y)
      ensures r == r'
    {
      CoveringEntriesAgree(rows, order, c, im, clip, smooth, r, r', x, y);
    }
  }

  /** Every entry of the completed sequence is `Entry(i, j)` for a box of
      the grid, and fits the mask. */
  lemma CompletedEntries(rows: seq<seq<TileResult>>, order: seq<int>, c: TileConfig, im: Grid<real>,
                         clip: Clip, smooth: Smooth, r: TileResult)
    requires IsRect(im, c.npix, c.npix)
    requires ClipKeepsShape(clip) && SmoothKeepsShape(smooth)
    requires RowsOfWork(rows, c, im, clip, smooth)
    requires forall k :: 0 <= k < |order| ==> 0 <= order[k] < |rows|
    requires r in Completed(rows, order)
    ensures exists i, j :: 0 <= i < c.boxes && 0 <= j < c.boxes && r == Entry(i, j, c, im, clip, smooth)
    ensures Fits(r.patch, c.npix, c.npix)
  {
    CompletedMembers(rows, order, r);
    var o, j :| o in order && 0 <= o < |rows| && 0 <= j < |rows[o]| && r == rows[o][j];
  }

  /** With no overlap, the entries of the completed sequence that cover a
      cell agree on it: they are all the one entry of the box holding it. */
  lemma ZeroOverlapAgree(rows: seq<seq<TileResult>>, order: seq<int>,
                         c: TileConfig, im: Grid<real>, clip: Clip, smooth: Smooth, x: int, y: int)
    requires IsRect(im, c.npix, c.npix)
    requires ClipKeepsShape(clip) && SmoothKeepsShape(smooth)
    requires 0 < c.boxes && c.overlap == 0 && c.size == c.npix as real / c.boxes as real
    requires RowsOfWork(rows, c, im, clip, smooth)
    requires forall k :: 0 <= k < |order| ==> 0 <= order[k] < |rows|
    ensures AllFit(Completed(rows, order), c.npix)
    ensures Agree(Completed(rows, order), x, y)
  {
    var rs := Completed(rows, order);
    forall k | 0 <= k < |rs| ensures Fits(rs[k].patch, c.npix, c.npix) {
      CompletedEntries(rows, order, c, im, clip, smooth, rs[k]);
    }
    forall k, k' | 0 <= k < |rs| && 0 <= k' < |rs|
      && Covers(rs[k].patch, x, y) && Covers(rs[k'].patch, x, y)
      ensures ValueAt(rs[k].patch, x, y) == ValueAt(rs[k'].patch, x, y)
    {
      CoveringEntriesAgree(rows, order, c, im, clip, smooth, rs[k], rs[k'], x, y);
    }
  }

  /** Two entries of the completed sequence that cover one cell are the same
      entry, when there is no overlap. */
  lemma CoveringEntriesAgree(rows: seq<seq<TileResult>>, order: seq<int>,
                             c: TileConfig, im: Grid<real>, clip: Clip, smooth: Smooth,
                             r: TileResult, r': TileResult, x: int, y: int)
    requires IsRect(im, c.npix, c.npix)
    requires ClipKeepsShape(clip) && SmoothKeepsShape(smooth)
    requires 0 < c.boxes && c.overlap == 0 && c.size == c.npix as real / c.boxes as real
    requires RowsOfWork(rows, c, im, clip, smooth)
    requires forall k :: 0 <= k < |order| ==> 0 <= order[k] < |rows|
    requires r in Completed(rows, order) && r' in Completed(rows, order)
    requires Covers(r.patch, x, y) && Covers(r'.patch, x, y)
    ensures r == r'
  {
    CompletedEntries(rows, order, c, im, clip, smooth, r);
    CompletedEntries(rows, order, c, im, clip, smooth, r');
    var i, j :| 0 <= i < c.boxes && 0 <= j < c.boxes && r == Entry(i, j, c, im, clip, smooth);
    var i', j' :| 0 <= i' < c.boxes && 0 <= j' < c.boxes && r' == Entry(i', j', c, im, clip, smooth);
    if (i, j) != (i', j') {
      ZeroOverlapDisjoint(c, im, clip, smooth, i, j, i', j', x, y);
    }
  }

  /** With no overlap, the assembled mask is the same for every completion
      order of the rows: the boxes are disjoint, so no cell is written twice
      with different values. */
  lemma ZeroOverlapOrderIndependent(rows: seq<seq<TileResult>>, order1: seq<int>, order2: seq<int>,
                                    c: TileConfig, im: Grid<real>, clip: Clip, smooth: Smooth,
                                    x: int, y: int)
    requires IsRect(im, c.npix, c.npix)
    requires ClipKeepsShape(clip) && SmoothKeepsShape(smooth)
    requires 0 < c.boxes && c.overlap == 0 && c.size == c.npix as real / c.boxes as real
    requires RowsOfWork(rows, c, im, clip, smooth)
    requires forall k :: 0 <= k < |order1| ==> 0 <= order1[k] < |rows|
    requires forall k :: 0 <= k < |order2| ==> 0 <= order2[k] < |rows|
    requires forall o :: o in order1 <==> o in order2
    ensures AllFit(Completed(rows, order1), c.npix) && AllFit(Completed(rows, order2), c.npix)
    ensures CellAfter(Completed(rows, order1), x, y) == CellAfter(Completed(rows, order2), x, y)
  {
    var rs, ps := Completed(rows, order1), Completed(rows, order2);
    ZeroOverlapAgree(rows, order1, c, im, clip, smooth, x, y);
    ZeroOverlapAgree(rows, order2, c, im, clip, smooth, x, y);
    forall r ensures r in rs <==> r in ps {
      CompletedMembers(rows, order1, r);
      CompletedMembers(rows, order2, r);
    }
    SameEntriesSameCell(rs, ps, x, y);
  }
}
