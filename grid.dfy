/**
  The rendered map, shared by both scripts: a dense rectangle of cells, each
  either empty or filled with a descriptor and its colour, listed row by row
  between the opening and closing wrapper of the grid element.
*/
module Grid {
  import opened Classifier

  /** One grid cell; a filled cell carries the descriptor drawn there and its colour. */
  datatype Cell = Empty(x: int, y: int) | Filled(x: int, y: int, desc: string, color: string)

  /**
    Cell a is cell c moved by (dx, dy): it stands (dx, dy) away from c and is
    empty when c is, or shows c's descriptor in c's colour.
  */
  predicate Moved(a: Cell, c: Cell, dx: int, dy: int) {
    && a.x == c.x + dx && a.y == c.y + dy
    && a.Filled? == c.Filled?
    && (a.Filled? ==> a.desc == c.desc && a.color == c.color)
  }

  /** The pieces of the grid markup, in output order. */
  datatype MapItem = GridOpen | GridCell(cell: Cell) | GridClose

  /** The grid element: the opening wrapper, one entry per cell, the closing wrapper. */
  function Wrap(cells: seq<Cell>): (items: seq<MapItem>)
    ensures |items| == |cells| + 2
    ensures items[0] == GridOpen && items[|items| - 1] == GridClose
    ensures forall k :: 0 <= k < |cells| ==> items[k + 1] == GridCell(cells[k])
  {
    [GridOpen] + seq(|cells|, k requires 0 <= k < |cells| => GridCell(cells[k])) + [GridClose]
  }

  /**
    What one run hands to the page template: the colour table, the legend rows,
    the grid markup and the grid's height and width in cells.
  */
  datatype Page = Page(colors: map<string, string>, legend: seq<LegendRow>, mapHtml: seq<MapItem>, gridHeight: int, gridWidth: int)

  /** len(range(lo, hi)). */
  function RangeLen(lo: int, hi: int): nat {
    if hi > lo then hi - lo else 0
  }

  /** Euclidean division recovers the row and the column of a row-major index. */
  lemma DivModOfIndex(q: int, r: int, w: int)
    requires w > 0 && 0 <= r < w
    ensures (q * w + r) / w == q && (q * w + r) % w == r
  {
    var k := q * w + r;
    var q', r' := k / w, k % w;
    assert k == q' * w + r';
    assert (q - q') * w == r' - r;
    if q > q' {
      AtLeastOnce(q - q', w);
    } else if q < q' {
      AtLeastOnce(q' - q, w);
    }
  }

  lemma {:induction false} AtLeastOnce(d: int, w: int)
    requires d >= 1 && w > 0
    ensures d * w >= w
  {
    if d > 1 {
      AtLeastOnce(d - 1, w);
      assert d * w == (d - 1) * w + w;
    }
  }

  /** A row-major index of a row below h and a column below w is below w * h. */
  lemma IndexBelowProduct(q: int, r: int, w: int, h: int)
    requires 0 <= q < h && 0 <= r < w
    ensures 0 <= q * w + r < w * h
  {
    assert q * w <= (h - 1) * w;
  }

  /** Every index of a w-by-h row-major grid splits into a row below h and a column below w. */
  lemma RowMajorSplit(k: int, w: int, h: int)
    requires w > 0 && 0 <= k < w * h
    ensures 0 <= k / w < h && 0 <= k % w < w
    ensures k == (k / w) * w + k % w
  {
  }

  // ---------------------------------------------------------------------------
  // Counting filled cells
  // ---------------------------------------------------------------------------

  function FilledCount(cells: seq<Cell>): nat {
    if cells == [] then 0
    else FilledCount(cells[..|cells| - 1]) + (if cells[|cells| - 1].Filled? then 1 else 0)
  }

  function Position(c: Cell): (int, int) {
    (c.x, c.y)
  }

  /** No two cells of the grid stand at the same coordinate. */
  predicate DistinctPositions(cells: seq<Cell>) {
    forall i, j :: 0 <= i < j < |cells| ==> Position(cells[i]) != Position(cells[j])
  }

  function FilledPositions(cells: seq<Cell>): set<(int, int)> {
    set k | 0 <= k < |cells| && cells[k].Filled? :: Position(cells[k])
  }

  /** When cells stand at distinct coordinates, counting filled cells counts filled coordinates. */
  lemma {:induction false} FilledCountIsFilledPositions(cells: seq<Cell>)
    requires DistinctPositions(cells)
    ensures FilledCount(cells) == |FilledPositions(cells)|
  {
    if cells != [] {
      var n := |cells| - 1;
      var init := cells[..n];
      assert DistinctPositions(init);
      FilledCountIsFilledPositions(init);
      FilledPositionsSnoc(cells);
      forall k | 0 <= k < n ensures Position(init[k]) != Position(cells[n]) {
        assert init[k] == cells[k];
      }
    }
  }

  lemma FilledPositionsSnoc(cells: seq<Cell>)
    requires cells != []
    ensures var n := |cells| - 1;
      FilledPositions(cells)
      == FilledPositions(cells[..n]) + (if cells[n].Filled? then {Position(cells[n])} else {})
  {
    var n := |cells| - 1;
    var init := cells[..n];
    forall k | 0 <= k < n ensures init[k] == cells[k] {
    }
  }
}
