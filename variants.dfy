/**
  The two renderers side by side.  On tiles with pairwise distinct
  coordinates they draw the same grid, mapit's in coordinates shifted to a
  zero origin; where two tiles share a coordinate, main shows the last of
  them and mapit the first.
*/
module Variants {
  import opened Results
  import opened MapData
  import opened Grid
  import opened Classifier
  import MainMapper
  import Mapit

  /** The frame holds the tiles, row by row, with coordinates moved by (-dx, -dy). */
  predicate Shifted(frame: seq<Mapit.Row>, tiles: seq<Tile>, dx: int, dy: int) {
    && |frame| == |tiles|
    && forall i :: 0 <= i < |frame| ==>
         frame[i].desc == tiles[i].desc && frame[i].xAdj == tiles[i].x - dx && frame[i].yAdj == tiles[i].y - dy
  }

  /** Grid a is grid b cell by cell, every cell moved by (dx, dy). */
  predicate ShiftedGrid(a: seq<Cell>, b: seq<Cell>, dx: int, dy: int) {
    |a| == |b| && forall k :: 0 <= k < |a| ==> Moved(a[k], b[k], dx, dy)
  }

  /** Adding the adjusted columns moves every tile by the lower-left corner of the bounding box. */
  lemma {:induction false} AdjustedIsShifted(tiles: seq<Tile>)
    requires |tiles| > 0
    ensures var b := BoundingBox(tiles); Shifted(Mapit.AddAdjustedColumns(tiles), tiles, b.xMin, b.yMin)
  {
    Mapit.AdjustedFromOrigin(tiles);
  }

  /**
    With unique coordinates, the first row mapit finds at (x, y) is the last
    tile main keeps at the original coordinate (xs, ys) = (x + dx, y + dy).
  */
  lemma {:induction false} FirstMatchIsLastMatch(frame: seq<Mapit.Row>, tiles: seq<Tile>, dx: int, dy: int, x: int, y: int, xs: int, ys: int)
    requires Shifted(frame, tiles, dx, dy) && UniqueCoords(tiles)
    requires xs == x + dx && ys == y + dy
    ensures Mapit.FirstIndexAt(frame, x, y) == MainMapper.LastIndexAt(tiles, xs, ys)
  {
    assert forall i :: 0 <= i < |tiles| ==> (Mapit.AtAdj(frame[i], x, y) <==> At(tiles[i], xs, ys));
    var first := Mapit.FirstIndexAt(frame, x, y);
    var last := MainMapper.LastIndexAt(tiles, xs, ys);
    if first.Some? && last.Some? {
      var i, j := first.value, last.value;
      assert At(tiles[i], xs, ys);
      if i < j {
        assert false;
      } else if j < i {
        assert false;
      }
    }
  }

  /**
    With unique coordinates and one colour table, mapit's cell at (x, y) is
    main's cell at (xs, ys) = (x + dx, y + dy), moved to (x, y).
  */
  lemma {:induction false} CellsAgree(frame: seq<Mapit.Row>, tiles: seq<Tile>, colors: map<string, string>, dx: int, dy: int, x: int, y: int, xs: int, ys: int)
    requires Shifted(frame, tiles, dx, dy) && UniqueCoords(tiles)
    requires forall i :: 0 <= i < |tiles| ==> tiles[i].desc in colors
    requires xs == x + dx && ys == y + dy
    ensures MainMapper.Colored(MainMapper.CellDict(tiles), colors)
    ensures Mapit.FrameColored(frame, colors)
    ensures Moved(Mapit.MapitCell(frame, colors, x, y), MainMapper.MainCell(MainMapper.CellDict(tiles), colors, xs, ys), -dx, -dy)
  {
    SameIndex(frame, tiles, colors, dx, dy, x, y, xs, ys);
    SameContent(frame, tiles, colors, dx, dy, x, y, xs, ys);
  }

  /**
    Both tables colour every descriptor, and mapit's first row at (x, y) is
    main's last tile at (xs, ys), with the same descriptor.
  */
  ghost predicate IndexMatch(frame: seq<Mapit.Row>, tiles: seq<Tile>, colors: map<string, string>, x: int, y: int, xs: int, ys: int) {
    && MainMapper.Colored(MainMapper.CellDict(tiles), colors)
    && Mapit.FrameColored(frame, colors)
    && Mapit.FirstIndexAt(frame, x, y) == MainMapper.LastIndexAt(tiles, xs, ys)
    && var r := Mapit.FirstIndexAt(frame, x, y);
       r.Some? ==> r.value < |tiles| && frame[r.value].desc == tiles[r.value].desc
  }

  /** The facts about the shifted frame that the cell comparison needs. */
  lemma {:induction false} SameIndex(frame: seq<Mapit.Row>, tiles: seq<Tile>, colors: map<string, string>, dx: int, dy: int, x: int, y: int, xs: int, ys: int)
    requires Shifted(frame, tiles, dx, dy) && UniqueCoords(tiles)
    requires forall i :: 0 <= i < |tiles| ==> tiles[i].desc in colors
    requires xs == x + dx && ys == y + dy
    ensures IndexMatch(frame, tiles, colors, x, y, xs, ys)
  {
    MainMapper.DictHoldsTiles(tiles, colors);
    FirstMatchIsLastMatch(frame, tiles, dx, dy, x, y, xs, ys);
  }

  /**
    When mapit's first row at (x, y) is main's last tile at (xs, ys) =
    (x + dx, y + dy), the two cells are both empty or both show that tile's
    descriptor and colour: mapit's cell is main's moved back by (dx, dy).
  */
  lemma {:induction false} SameContent(frame: seq<Mapit.Row>, tiles: seq<Tile>, colors: map<string, string>, dx: int, dy: int, x: int, y: int, xs: int, ys: int)
    requires xs == x + dx && ys == y + dy
    requires IndexMatch(frame, tiles, colors, x, y, xs, ys)
    ensures Moved(Mapit.MapitCell(frame, colors, x, y), MainMapper.MainCell(MainMapper.CellDict(tiles), colors, xs, ys), -dx, -dy)
  {
    MainMapper.MainCellOfIndex(tiles, colors, xs, ys);
  }

  /** Every cell of the frame's grid is the dictionary's cell moved by (-dx, -dy). */
  ghost predicate CellwiseShifted(frame: seq<Mapit.Row>, dict: map<(int, int), Tile>, colors: map<string, string>, dx: int, dy: int) {
    && MainMapper.Colored(dict, colors)
    && Mapit.FrameColored(frame, colors)
    && forall x, y, xs, ys :: xs == x + dx && ys == y + dy ==>
         Moved(Mapit.MapitCell(frame, colors, x, y), MainMapper.MainCell(dict, colors, xs, ys), -dx, -dy)
  }

  /** CellsAgree at every coordinate. */
  lemma {:induction false} AllCellsAgree(frame: seq<Mapit.Row>, tiles: seq<Tile>, colors: map<string, string>, dx: int, dy: int)
    requires Shifted(frame, tiles, dx, dy) && UniqueCoords(tiles)
    requires forall i :: 0 <= i < |tiles| ==> tiles[i].desc in colors
    ensures CellwiseShifted(frame, MainMapper.CellDict(tiles), colors, dx, dy)
  {
    CellsAgree(frame, tiles, colors, dx, dy, 0, 0, dx, dy);
    forall x, y, xs, ys | xs == x + dx && ys == y + dy
      ensures Moved(Mapit.MapitCell(frame, colors, x, y), MainMapper.MainCell(MainMapper.CellDict(tiles), colors, xs, ys), -dx, -dy)
    {
      CellsAgree(frame, tiles, colors, dx, dy, x, y, xs, ys);
    }
  }

  /**
    Cell k of the frame's grid is cell k of box b's grid shifted by the box's
    lower-left corner, when the frame's cells are the dictionary's moved by
    that corner.
  */
  lemma {:induction false} BoxGridsAgree(frame: seq<Mapit.Row>, dict: map<(int, int), Tile>, colors: map<string, string>, b: Box)
    requires CellwiseShifted(frame, dict, colors, b.xMin, b.yMin)
    requires b.xMin <= b.xMax && b.yMin <= b.yMax
    ensures var main := MainMapper.MainCells(dict, colors, b);
      var mapit := Mapit.MapitCells(frame, colors, b.yMax - b.yMin + 1, b.xMax - b.xMin + 1);
      ShiftedGrid(mapit, main, -b.xMin, -b.yMin)
  {
    var w, h := b.xMax - b.xMin + 1, b.yMax - b.yMin + 1;
    var main := MainMapper.MainCells(dict, colors, b);
    var mapit := Mapit.MapitCells(frame, colors, h, w);
    Mapit.MapitCellsSize(frame, colors, h, w);
    assert RangeLen(b.xMin, b.xMax + 1) == w && RangeLen(b.yMin, b.yMax + 1) == h;
    assert |main| == w * h;
    forall k | 0 <= k < |main| ensures Moved(mapit[k], main[k], -b.xMin, -b.yMin) {
      GridCellAgrees(frame, dict, colors, b, k);
    }
  }

  /** Cell k of the two grids of BoxGridsAgree. */
  lemma {:induction false} GridCellAgrees(frame: seq<Mapit.Row>, dict: map<(int, int), Tile>, colors: map<string, string>, b: Box, k: nat)
    requires CellwiseShifted(frame, dict, colors, b.xMin, b.yMin)
    requires b.xMin <= b.xMax && b.yMin <= b.yMax
    requires k < (b.xMax - b.xMin + 1) * (b.yMax - b.yMin + 1)
    ensures var main := MainMapper.MainCells(dict, colors, b);
      var mapit := Mapit.MapitCells(frame, colors, b.yMax - b.yMin + 1, b.xMax - b.xMin + 1);
      k < |main| && k < |mapit| && Moved(mapit[k], main[k], -b.xMin, -b.yMin)
  {
    var w, h := b.xMax - b.xMin + 1, b.yMax - b.yMin + 1;
    var x, y := k % w, h - 1 - k / w;
    Mapit.MapitCellsSize(frame, colors, h, w);
    assert RangeLen(b.xMin, b.xMax + 1) == w && RangeLen(b.yMin, b.yMax + 1) == h;
    MainMapper.MainCellsAt(dict, colors, b, k);
    assert Moved(Mapit.MapitCell(frame, colors, x, y), MainMapper.MainCell(dict, colors, b.xMin + k % w, b.yMax - k / w), -b.xMin, -b.yMin);
  }

  /**
    The cross-variant grid: for tiles with unique coordinates and one colour
    table, mapit's grid has as many cells as main's, and its cell k is main's
    cell k moved by (-xMin, -yMin): mapit's (x, y) is main's (x + xMin, y + yMin).
  */
  lemma {:induction false} GridsAgree(tiles: seq<Tile>, colors: map<string, string>, b: Box)
    requires |tiles| > 0 && UniqueCoords(tiles) && b == BoundingBox(tiles)
    requires forall i :: 0 <= i < |tiles| ==> tiles[i].desc in colors
    ensures MainMapper.Colored(MainMapper.CellDict(tiles), colors)
    ensures Mapit.FrameColored(Mapit.AddAdjustedColumns(tiles), colors)
    ensures var main := MainMapper.MainCells(MainMapper.CellDict(tiles), colors, b);
      var mapit := Mapit.MapitCells(Mapit.AddAdjustedColumns(tiles), colors, b.yMax - b.yMin + 1, b.xMax - b.xMin + 1);
      ShiftedGrid(mapit, main, -b.xMin, -b.yMin)
  {
    AdjustedCellwise(tiles, colors);
    BoxGridsAgree(Mapit.AddAdjustedColumns(tiles), MainMapper.CellDict(tiles), colors, b);
  }

  /** The adjusted frame's cells are main's cells moved by the box's lower-left corner. */
  lemma {:induction false} AdjustedCellwise(tiles: seq<Tile>, colors: map<string, string>)
    requires |tiles| > 0 && UniqueCoords(tiles)
    requires forall i :: 0 <= i < |tiles| ==> tiles[i].desc in colors
    ensures var b := BoundingBox(tiles);
      && b.xMin <= b.xMax && b.yMin <= b.yMax
      && CellwiseShifted(Mapit.AddAdjustedColumns(tiles), MainMapper.CellDict(tiles), colors, b.xMin, b.yMin)
  {
    var b := BoundingBox(tiles);
    AdjustedIsShifted(tiles);
    AllCellsAgree(Mapit.AddAdjustedColumns(tiles), tiles, colors, b.xMin, b.yMin);
    assert Xs(tiles)[0] == tiles[0].x && Ys(tiles)[0] == tiles[0].y;
  }

  /**
    Both scripts give the grid the width and the height of the bounding box.
  */
  lemma {:induction false} DimensionsAgree(tiles: seq<Tile>, palette: Palette)
    requires |tiles| > 0
    ensures MainMapper.PageOf(tiles, palette).gridWidth == Mapit.PageOf(tiles, palette).gridWidth
    ensures MainMapper.PageOf(tiles, palette).gridHeight == Mapit.PageOf(tiles, palette).gridHeight
  {
    Mapit.PageDimensions(tiles, palette);
  }

  /**
    The two classifications colour and label the same descriptors in the same
    order.  A descriptor that neither script overrides gets the same palette
    colour from both, and one main has no label for is labelled alike.
  */
  lemma {:induction false} ClassificationsAgree(column: seq<string>, palette: Palette, j: nat)
    requires j < |Unique(column)|
    ensures var main := MainMapper.CreateColorMapping(column, MainMapper.CustomColors, MainMapper.CustomLabels, palette);
      var mapit := Mapit.ColorMapping(column, palette);
      var d := Unique(column)[j];
      && |main.legend| == |mapit.legend|
      && main.legend[j].desc == mapit.legend[j].desc == d
      && (d !in MainMapper.CustomLabels ==> main.legend[j] == mapit.legend[j])
      && (d !in MainMapper.CustomColors && d !in Mapit.CustomColors ==> main.colors[d] == mapit.colors[d])
  {
    MainMapper.OverridePrecedence(column, MainMapper.CustomColors, MainMapper.CustomLabels, palette, j);
    Mapit.ColorMappingEntries(column, palette, j);
  }

  /**
    Two tiles at the same coordinate with different descriptors: main's
    one-cell grid shows the second tile, mapit's the first.
  */
  lemma {:induction false} DuplicateCoordinatesDiverge(tiles: seq<Tile>, colors: map<string, string>)
    requires |tiles| == 2 && At(tiles[1], tiles[0].x, tiles[0].y) && tiles[0].desc != tiles[1].desc
    requires tiles[0].desc in colors && tiles[1].desc in colors
    ensures MainMapper.Colored(MainMapper.CellDict(tiles), colors)
    ensures Mapit.FrameColored(Mapit.AddAdjustedColumns(tiles), colors)
    ensures MainMapper.MainCells(MainMapper.CellDict(tiles), colors, BoundingBox(tiles))
      == [Filled(tiles[0].x, tiles[0].y, tiles[1].desc, colors[tiles[1].desc])]
    ensures Mapit.MapitCells(Mapit.AddAdjustedColumns(tiles), colors, 1, 1)
      == [Filled(0, 0, tiles[0].desc, colors[tiles[0].desc])]
  {
    MainShowsLast(tiles, colors);
    MapitShowsFirst(tiles, colors);
  }

  /** The one-cell grid main draws for two tiles at one coordinate. */
  lemma {:induction false} MainShowsLast(tiles: seq<Tile>, colors: map<string, string>)
    requires |tiles| == 2 && At(tiles[1], tiles[0].x, tiles[0].y)
    requires tiles[0].desc in colors && tiles[1].desc in colors
    ensures MainMapper.Colored(MainMapper.CellDict(tiles), colors)
    ensures MainMapper.MainCells(MainMapper.CellDict(tiles), colors, BoundingBox(tiles))
      == [Filled(tiles[0].x, tiles[0].y, tiles[1].desc, colors[tiles[1].desc])]
  {
    var x, y := tiles[0].x, tiles[0].y;
    MainMapper.DictHoldsTiles(tiles, colors);
    PairBox(tiles);
    assert MainMapper.LastIndexAt(tiles, x, y) == Some(1);
    MainMapper.MainCellOfIndex(tiles, colors, x, y);
    OneCellGrid(MainMapper.CellDict(tiles), colors, BoundingBox(tiles));
  }

  /** The grid of a box that is a single point is the one cell of that point. */
  lemma {:induction false} OneCellGrid(dict: map<(int, int), Tile>, colors: map<string, string>, b: Box)
    requires MainMapper.Colored(dict, colors)
    requires b.xMin == b.xMax && b.yMin == b.yMax
    ensures MainMapper.MainCells(dict, colors, b) == [MainMapper.MainCell(dict, colors, b.xMin, b.yMin)]
  {
    var cells := MainMapper.MainCells(dict, colors, b);
    assert RangeLen(b.xMin, b.xMax + 1) == 1 && RangeLen(b.yMin, b.yMax + 1) == 1;
    MainMapper.MainCellsAt(dict, colors, b, 0);
    assert cells == [cells[0]];
  }

  /** The bounding box of two tiles at one coordinate is that one point. */
  lemma {:induction false} PairBox(tiles: seq<Tile>)
    requires |tiles| == 2 && At(tiles[1], tiles[0].x, tiles[0].y)
    ensures BoundingBox(tiles) == Box(tiles[0].x, tiles[0].x, tiles[0].y, tiles[0].y)
  {
    assert Xs(tiles) == [tiles[0].x, tiles[0].x] && Ys(tiles) == [tiles[0].y, tiles[0].y];
  }

  /** The one-cell grid mapit draws for two tiles at one coordinate. */
  lemma {:induction false} MapitShowsFirst(tiles: seq<Tile>, colors: map<string, string>)
    requires |tiles| == 2 && At(tiles[1], tiles[0].x, tiles[0].y)
    requires tiles[0].desc in colors && tiles[1].desc in colors
    ensures Mapit.FrameColored(Mapit.AddAdjustedColumns(tiles), colors)
    ensures Mapit.MapitCells(Mapit.AddAdjustedColumns(tiles), colors, 1, 1)
      == [Filled(0, 0, tiles[0].desc, colors[tiles[0].desc])]
  {
    var x, y := tiles[0].x, tiles[0].y;
    var frame := Mapit.AddAdjustedColumns(tiles);
    assert Xs(tiles) == [x, x] && Ys(tiles) == [y, y];
    assert frame[0].xAdj == 0 && frame[0].yAdj == 0 && frame[0].desc == tiles[0].desc;
    assert Mapit.FirstIndexAt(frame, 0, 0) == Some(0);
    Mapit.MapitCellsSize(frame, colors, 1, 1);
  }
}
