/**
  A separate renderer: it checks only that the map data is not
  empty, adds zero-based X_adj and Y_adj columns to the data frame, colours
  the distinct descriptors by drawing from a palette list it empties as it
  goes, and scans the frame for the first tile at every adjusted coordinate.
*/
module Mapit {
  import opened Results
  import opened MapData
  import opened Grid
  import opened Classifier
  import opened DescriptorFormat

  /** The two colour overrides, keyed by exact descriptor. */
  const CustomColors: map<string, string> := map[
    "Abyss" := "#0a0a0a",
    "Battlements" := "#4b0082"
  ]

  /** Why a run ends before the page is written. */
  datatype RunError =
    | NoMapData       // "Map" is absent or an empty array: the script exits
    | MissingColumn   // selecting X, Y or DescriptorID raises an uncaught KeyError

  /** One row of the data frame once the adjusted columns are added. */
  datatype Row = Row(x: int, y: int, desc: string, xAdj: int, yAdj: int)

  // ---------------------------------------------------------------------------
  // Loading and the adjusted coordinates
  // ---------------------------------------------------------------------------

  /**
    load_map_data and the data frame built from it.  Only emptiness is
    checked, so a "Map" value Python treats as false stops the run whatever
    its type; a frame without X, Y or DescriptorID fails with a KeyError on
    first use of the column.
  */
  function LoadFrame(entry: MapEntry): (r: Result<seq<Tile>, RunError>)
    requires entry.NotAList? ==> entry.empty
    requires entry.Records? ==> ColumnsUniform(entry.items)
    ensures r == Err(NoMapData) <==> entry.Missing? || entry == NotAList(true) || entry == Records([])
    ensures r == Err(MissingColumn) <==> entry.Records? && entry.items != [] && !HasRequiredColumns(entry.items)
    ensures r.Ok? ==>
      && entry.Records? && |r.value| == |entry.items| > 0
      && forall i :: 0 <= i < |r.value| ==>
           entry.items[i] == Record(Some(r.value[i].x), Some(r.value[i].y), Some(r.value[i].desc))
  {
    match entry
    case Missing => Err(NoMapData)
    case NotAList(_) => Err(NoMapData)
    case Records(items) =>
      if items == [] then Err(NoMapData)
      else if !HasRequiredColumns(items) then Err(MissingColumn)
      else
        UniformColumnsComplete(items);
        Ok(ToTiles(items))
  }

  /**
    The frame after X_adj and Y_adj are assigned: every row keeps its X, Y
    and DescriptorID, and gains its coordinates shifted by the column minima.
  */
  function AddAdjustedColumns(tiles: seq<Tile>): (frame: seq<Row>)
    requires |tiles| > 0
    ensures |frame| == |tiles|
    ensures forall i :: 0 <= i < |frame| ==>
      frame[i].x == tiles[i].x && frame[i].y == tiles[i].y && frame[i].desc == tiles[i].desc
  {
    var xMin, yMin := MinOf(Xs(tiles)), MinOf(Ys(tiles));
    seq(|tiles|, i requires 0 <= i < |tiles| =>
      Row(tiles[i].x, tiles[i].y, tiles[i].desc, tiles[i].x - xMin, tiles[i].y - yMin))
  }

  function XAdjs(frame: seq<Row>): seq<int> {
    seq(|frame|, i requires 0 <= i < |frame| => frame[i].xAdj)
  }

  function YAdjs(frame: seq<Row>): seq<int> {
    seq(|frame|, i requires 0 <= i < |frame| => frame[i].yAdj)
  }

  /**
    The adjusted coordinates are the tile's offsets from the lower-left corner
    of the bounding box: never negative, and each column reaches 0.
  */
  lemma AdjustedFromOrigin(tiles: seq<Tile>)
    requires |tiles| > 0
    ensures var frame := AddAdjustedColumns(tiles); var b := BoundingBox(tiles);
      && (forall i :: 0 <= i < |frame| ==>
            frame[i].xAdj == tiles[i].x - b.xMin && frame[i].yAdj == tiles[i].y - b.yMin
            && 0 <= frame[i].xAdj && 0 <= frame[i].yAdj)
      && (exists i :: 0 <= i < |frame| && frame[i].xAdj == 0)
      && (exists i :: 0 <= i < |frame| && frame[i].yAdj == 0)
  {
    var frame := AddAdjustedColumns(tiles);
    BoundingBoxIsTight(tiles);
    var b := BoundingBox(tiles);
    var i0 :| 0 <= i0 < |tiles| && tiles[i0].x == b.xMin;
    var i1 :| 0 <= i1 < |tiles| && tiles[i1].y == b.yMin;
    assert frame[i0].xAdj == 0 && frame[i1].yAdj == 0;
  }

  /** A value bounding a column from above and found in it is the column's maximum. */
  lemma MaxOfIsAttainedBound(s: seq<int>, m: int)
    requires |s| > 0
    requires forall i :: 0 <= i < |s| ==> s[i] <= m
    requires exists i :: 0 <= i < |s| && s[i] == m
    ensures MaxOf(s) == m
  {
    var i :| 0 <= i < |s| && s[i] == m;
    var j :| 0 <= j < |s| && s[j] == MaxOf(s);
  }

  /**
    grid_width = max X_adj + 1 and grid_height = max Y_adj + 1 are the width
    and the height of the tiles' bounding box.
  */
  lemma GridDimensions(tiles: seq<Tile>)
    requires |tiles| > 0
    ensures var frame := AddAdjustedColumns(tiles); var b := BoundingBox(tiles);
      && MaxOf(XAdjs(frame)) + 1 == b.xMax - b.xMin + 1
      && MaxOf(YAdjs(frame)) + 1 == b.yMax - b.yMin + 1
  {
    var frame := AddAdjustedColumns(tiles);
    var b := BoundingBox(tiles);
    AdjustedFromOrigin(tiles);
    BoundingBoxIsTight(tiles);
    var i0 :| 0 <= i0 < |tiles| && tiles[i0].x == b.xMax;
    var i1 :| 0 <= i1 < |tiles| && tiles[i1].y == b.yMax;
    assert XAdjs(frame)[i0] == b.xMax - b.xMin;
    assert YAdjs(frame)[i1] == b.yMax - b.yMin;
    MaxOfIsAttainedBound(XAdjs(frame), b.xMax - b.xMin);
    MaxOfIsAttainedBound(YAdjs(frame), b.yMax - b.yMin);
  }

  // ---------------------------------------------------------------------------
  // Classification
  // ---------------------------------------------------------------------------

  /**
    What create_color_mapping computes: the two overrides, else the palette
    entry at the descriptor's position among the distinct descriptors; every
    label is the formatted descriptor.
  */
  function ColorMapping(column: seq<string>, palette: Palette): (c: Classification)
    ensures forall d :: d in c.colors <==> d in column
    ensures |c.legend| == |Unique(column)|
  {
    var u := Unique(column);
    Classification(
      ColorTable(u, CustomColors, palette),
      seq(|u|, j requires 0 <= j < |u| => LegendRow(u[j], Format(u[j]))))
  }

  /**
    Labels are never overridden, and an overridden colour is taken verbatim:
    the j-th distinct descriptor is labelled by its formatted form, and is
    coloured by its override, or else by palette entry j.
  */
  lemma ColorMappingEntries(column: seq<string>, palette: Palette, j: nat)
    requires j < |Unique(column)|
    ensures var c := ColorMapping(column, palette); var d := Unique(column)[j];
      && c.legend[j] == LegendRow(d, Format(d))
      && (d in CustomColors ==> c.colors[d] == CustomColors[d])
      && (d !in CustomColors ==> c.colors[d] == palette(|Unique(column)|, j))
  {
  }

  /** A descriptor spelled exactly "Abyss" is coloured "#0a0a0a" verbatim. */
  lemma AbyssOverride(column: seq<string>, palette: Palette, d: string)
    requires d == "Abyss" && d in column
    ensures ColorMapping(column, palette).colors[d] == "#0a0a0a"
  {
    var u := Unique(column);
    var j := FirstIndex(u, d);
    assert u[j] == d && d in CustomColors;
    ColorMappingEntries(column, palette, j);
  }

  /** A descriptor spelled exactly "Battlements" is coloured "#4b0082" verbatim. */
  lemma BattlementsOverride(column: seq<string>, palette: Palette, d: string)
    requires d == "Battlements" && d in column
    ensures ColorMapping(column, palette).colors[d] == "#4b0082"
  {
    var u := Unique(column);
    var j := FirstIndex(u, d);
    assert u[j] == d && d in CustomColors;
    ColorMappingEntries(column, palette, j);
  }

  /** A differently cased "abyss" or "battlements" is not an override key. */
  lemma OverrideKeysAreExact()
    ensures "abyss" !in CustomColors && "battlements" !in CustomColors
  {
  }

  /**
    The colour the j-th distinct descriptor is given: its override when it
    has one, else palette entry j of a palette resampled to |u| entries.
  */
  function Drawn(u: seq<string>, palette: Palette, j: nat): (color: string)
    requires j < |u|
    ensures u[j] in CustomColors ==> color == CustomColors[u[j]]
    ensures u[j] !in CustomColors ==> color == palette(|u|, j)
  {
    if u[j] in CustomColors then CustomColors[u[j]] else palette(|u|, j)
  }

  /** A table that gives each distinct descriptor, and nothing else, its drawn colour is the colour table. */
  lemma ColorsAreTable(u: seq<string>, colors: map<string, string>, palette: Palette)
    requires NoDuplicates(u)
    requires forall d :: d in colors <==> d in u
    requires forall k :: 0 <= k < |u| ==> colors[u[k]] == Drawn(u, palette, k)
    ensures colors == ColorTable(u, CustomColors, palette)
  {
    var table := ColorTable(u, CustomColors, palette);
    forall d | d in colors ensures colors[d] == table[d] {
      var k := FirstIndex(u, d);
      assert colors[u[k]] == table[u[k]];
    }
  }

  /**
    create_color_mapping: the colour list holds one palette entry per
    distinct descriptor and loses its head for every descriptor, overridden
    or not, because the default of the lookup is evaluated first.  The list
    ends empty, and each descriptor not overridden gets the entry at its own
    position.
  */
  method CreateColorMapping(column: seq<string>, palette: Palette) returns (c: Classification, colorList: seq<string>)
    ensures c == ColorMapping(column, palette)
    ensures colorList == []
  {
    var u := Unique(column);
    var n := |u|;
    var formatted := seq(n, j requires 0 <= j < n => LegendRow(u[j], Format(u[j])));
    colorList := seq(n, i requires 0 <= i < n => palette(n, ColormapIndex(i, n)));
    ghost var drawnFrom := colorList;
    forall i | 0 <= i < n ensures drawnFrom[i] == palette(n, i) {
      assert drawnFrom[i] == palette(n, ColormapIndex(i, n));
    }
    var colors: map<string, string> := map[];
    var j := 0;
    while j < n
      invariant 0 <= j <= n
      invariant colorList == drawnFrom[j..]
      invariant forall d :: d in colors <==> d in u[..j]
      invariant forall k :: 0 <= k < j ==> colors[u[k]] == Drawn(u, palette, k)
    {
      var d := u[j];
      assert forall k :: 0 <= k < j ==> u[k] != d;
      var popped := colorList[0];
      assert popped == palette(n, j);
      colorList := colorList[1..];
      colors := colors[d := if d in CustomColors then CustomColors[d] else popped];
      assert colors[d] == Drawn(u, palette, j);
      assert u[..j + 1] == u[..j] + [d];
      j := j + 1;
    }
    assert u[..n] == u;
    ColorsAreTable(u, colors, palette);
    c := Classification(colors, formatted);
  }

  // ---------------------------------------------------------------------------
  // The grid
  // ---------------------------------------------------------------------------

  /** The row stands at adjusted coordinate (x, y). */
  predicate AtAdj(row: Row, x: int, y: int) {
    row.xAdj == x && row.yAdj == y
  }

  /** Every descriptor of the frame has a colour. */
  predicate FrameColored(frame: seq<Row>, colors: map<string, string>) {
    forall i :: 0 <= i < |frame| ==> frame[i].desc in colors
  }

  /** The index of the first row at adjusted coordinate (x, y), if any: what iloc[0] picks from the filtered frame. */
  function FirstIndexAt(frame: seq<Row>, x: int, y: int): (r: Option<nat>)
    ensures r.None? <==> forall i :: 0 <= i < |frame| ==> !AtAdj(frame[i], x, y)
    ensures r.Some? ==>
      && r.value < |frame| && AtAdj(frame[r.value], x, y)
      && forall j :: 0 <= j < r.value ==> !AtAdj(frame[j], x, y)
  {
    if frame == [] then None
    else if AtAdj(frame[0], x, y) then Some(0)
    else
      var r := FirstIndexAt(frame[1..], x, y);
      assert forall i :: 1 <= i < |frame| ==> frame[1..][i - 1] == frame[i];
      if r.None? then None else Some(r.value + 1)
  }

  /** The cell generate_map_html emits for adjusted coordinate (x, y). */
  function MapitCell(frame: seq<Row>, colors: map<string, string>, x: int, y: int): (c: Cell)
    requires FrameColored(frame, colors)
    ensures Position(c) == (x, y)
    ensures c.Filled? <==> FirstIndexAt(frame, x, y).Some?
  {
    match FirstIndexAt(frame, x, y)
    case Some(i) => Filled(x, y, frame[i].desc, colors[frame[i].desc])
    case None => Empty(x, y)
  }

  /**
    The rows yHi down to yLo of a grid w cells wide, each from x = 0 up:
    cell k stands at (k % w, yHi - k / w).
  */
  function Band(frame: seq<Row>, colors: map<string, string>, w: int, yLo: int, yHi: int): (cells: seq<Cell>)
    requires FrameColored(frame, colors)
    ensures |cells| == RangeLen(0, w) * RangeLen(yLo, yHi + 1)
  {
    var width := RangeLen(0, w);
    var height := RangeLen(yLo, yHi + 1);
    if width == 0 then []
    else seq(width * height, k requires 0 <= k => MapitCell(frame, colors, k % width, yHi - k / width))
  }

  /** The cells of a grid_height by grid_width grid, the top row y = grid_height - 1 first. */
  function MapitCells(frame: seq<Row>, colors: map<string, string>, gridHeight: int, gridWidth: int): (cells: seq<Cell>)
    requires FrameColored(frame, colors)
    ensures gridHeight > 0 && gridWidth > 0 ==> |cells| == gridWidth * gridHeight
  {
    Band(frame, colors, gridWidth, 0, gridHeight - 1)
  }

  /** The first x cells of row y. */
  function RowOf(frame: seq<Row>, colors: map<string, string>, x: int, y: int): seq<Cell>
    requires FrameColored(frame, colors)
  {
    seq(RangeLen(0, x), i requires 0 <= i => MapitCell(frame, colors, i, y))
  }

  /** Row y up to x + 1 is row y up to x followed by the cell of (x, y). */
  lemma RowOfSnoc(frame: seq<Row>, colors: map<string, string>, x: int, y: int)
    requires FrameColored(frame, colors) && 0 <= x
    ensures RowOf(frame, colors, x + 1, y) == RowOf(frame, colors, x, y) + [MapitCell(frame, colors, x, y)]
  {
    assert RangeLen(0, x + 1) == RangeLen(0, x) + 1;
  }

  /** Appending row y to the rows above it gives the band down to row y. */
  lemma BandAddRow(frame: seq<Row>, colors: map<string, string>, w: int, y: int, yHi: int)
    requires FrameColored(frame, colors) && y <= yHi
    ensures Band(frame, colors, w, y + 1, yHi) + RowOf(frame, colors, w, y) == Band(frame, colors, w, y, yHi)
  {
    var width := RangeLen(0, w);
    if width > 0 {
      var above := Band(frame, colors, w, y + 1, yHi);
      var row := RowOf(frame, colors, w, y);
      var all := Band(frame, colors, w, y, yHi);
      var h := yHi - y;
      assert |above| == width * h;
      assert |all| == width * h + width;
      forall k | 0 <= k < |all| ensures (above + row)[k] == all[k] {
        if k >= width * h {
          var i := k - width * h;
          DivModOfIndex(h, i, width);
          assert k == h * width + i;
        }
      }
    }
  }

  /**
    generate_map_html: for every row from grid_height - 1 down to 0 and every
    column from 0 up, the first frame row at that adjusted coordinate fills
    the cell; the cells are wrapped in the grid element.
  */
  method GenerateMapHtml(frame: seq<Row>, colors: map<string, string>, gridHeight: int, gridWidth: int)
    returns (html: seq<MapItem>)
    requires FrameColored(frame, colors)
    ensures html == Wrap(MapitCells(frame, colors, gridHeight, gridWidth))
  {
    var cells: seq<Cell> := [];
    var y := gridHeight - 1;
    while y >= 0
      invariant y <= gridHeight - 1 && (-1 <= y || y == gridHeight - 1)
      invariant cells == Band(frame, colors, gridWidth, y + 1, gridHeight - 1)
      decreases y + 1
    {
      var x := 0;
      while x < gridWidth
        invariant 0 <= x && (x <= gridWidth || x == 0)
        invariant cells == Band(frame, colors, gridWidth, y + 1, gridHeight - 1) + RowOf(frame, colors, x, y)
        decreases gridWidth - x
      {
        var found := FirstIndexAt(frame, x, y);
        if found.Some? {
          var desc := frame[found.value].desc;
          cells := cells + [Filled(x, y, desc, colors[desc])];
        } else {
          cells := cells + [Empty(x, y)];
        }
        RowOfSnoc(frame, colors, x, y);
        x := x + 1;
      }
      assert RowOf(frame, colors, x, y) == RowOf(frame, colors, gridWidth, y);
      BandAddRow(frame, colors, gridWidth, y, gridHeight - 1);
      y := y - 1;
    }
    assert Band(frame, colors, gridWidth, y + 1, gridHeight - 1) == MapitCells(frame, colors, gridHeight, gridWidth);
    html := Wrap(cells);
  }

  /**
    The grid of a grid_height by grid_width frame has one cell per adjusted
    coordinate: its size is the product, every cell stands inside the grid
    and no two at the same coordinate.
  */
  lemma MapitCellsCoverGrid(frame: seq<Row>, colors: map<string, string>, gridHeight: int, gridWidth: int)
    requires FrameColored(frame, colors) && gridHeight > 0 && gridWidth > 0
    ensures var cells := MapitCells(frame, colors, gridHeight, gridWidth);
      && |cells| == gridWidth * gridHeight
      && (forall k :: 0 <= k < |cells| ==> 0 <= cells[k].x < gridWidth && 0 <= cells[k].y < gridHeight)
      && DistinctPositions(cells)
  {
    var cells := MapitCells(frame, colors, gridHeight, gridWidth);
    var w, h := gridWidth, gridHeight;
    MapitCellsSize(frame, colors, h, w);
    forall k | 0 <= k < |cells| ensures 0 <= cells[k].x < w && 0 <= cells[k].y < h {
      RowMajorSplit(k, w, h);
    }
    forall i, j | 0 <= i < j < |cells| ensures Position(cells[i]) != Position(cells[j]) {
      RowMajorSplit(i, w, h);
      RowMajorSplit(j, w, h);
    }
  }

  /** Cell (x, y) of the grid is drawn at (grid_height - 1 - y) * grid_width + x: top row first, x ascending. */
  lemma MapitCellAt(frame: seq<Row>, colors: map<string, string>, gridHeight: int, gridWidth: int, x: int, y: int)
    requires FrameColored(frame, colors) && 0 <= x < gridWidth && 0 <= y < gridHeight
    ensures var cells := MapitCells(frame, colors, gridHeight, gridWidth); var k := (gridHeight - 1 - y) * gridWidth + x;
      0 <= k < |cells| && cells[k] == MapitCell(frame, colors, x, y)
  {
    var w, h := gridWidth, gridHeight;
    MapitCellsSize(frame, colors, h, w);
    IndexBelowProduct(h - 1 - y, x, w, h);
    DivModOfIndex(h - 1 - y, x, w);
  }

  /** A grid_height by grid_width grid holds grid_height * grid_width cells. */
  lemma MapitCellsSize(frame: seq<Row>, colors: map<string, string>, gridHeight: int, gridWidth: int)
    requires FrameColored(frame, colors) && gridHeight > 0 && gridWidth > 0
    ensures |MapitCells(frame, colors, gridHeight, gridWidth)| == gridWidth * gridHeight
    ensures forall k :: 0 <= k < gridWidth * gridHeight ==>
      MapitCells(frame, colors, gridHeight, gridWidth)[k]
      == MapitCell(frame, colors, k % gridWidth, gridHeight - 1 - k / gridWidth)
  {
    assert RangeLen(0, gridWidth) == gridWidth && RangeLen(0, gridHeight - 1 + 1) == gridHeight;
  }

  /**
    A cell is filled exactly when some row stands at its adjusted coordinate;
    it then shows the FIRST such row's descriptor in that descriptor's colour.
  */
  lemma MapitCellFilledIff(frame: seq<Row>, colors: map<string, string>, x: int, y: int)
    requires FrameColored(frame, colors)
    ensures var c := MapitCell(frame, colors, x, y);
      && Position(c) == (x, y)
      && (c.Filled? <==> exists i :: 0 <= i < |frame| && AtAdj(frame[i], x, y))
      && (c.Filled? ==>
            && c.desc == frame[FirstIndexAt(frame, x, y).value].desc
            && c.color == colors[c.desc])
  {
    var r := FirstIndexAt(frame, x, y);
    if r.Some? {
      assert AtAdj(frame[r.value], x, y);
    }
  }

  // ---------------------------------------------------------------------------
  // One run
  // ---------------------------------------------------------------------------

  /** A colour table keyed by the DescriptorID column colours every row of the frame. */
  lemma FrameColoredBy(tiles: seq<Tile>, colors: map<string, string>)
    requires |tiles| > 0
    requires forall d :: d in colors <==> d in Descs(tiles)
    ensures FrameColored(AddAdjustedColumns(tiles), colors)
  {
    var frame := AddAdjustedColumns(tiles);
    forall i | 0 <= i < |frame| ensures frame[i].desc in colors {
      assert Descs(tiles)[i] == frame[i].desc;
    }
  }

  /** The page for a frame under classification c: the grid spans max X_adj + 1 columns and max Y_adj + 1 rows. */
  function PageWith(frame: seq<Row>, c: Classification): (page: Page)
    requires |frame| > 0 && FrameColored(frame, c.colors)
    ensures page.gridWidth == MaxOf(XAdjs(frame)) + 1 && page.gridHeight == MaxOf(YAdjs(frame)) + 1
    ensures page.mapHtml == Wrap(MapitCells(frame, c.colors, page.gridHeight, page.gridWidth))
  {
    var w, h := MaxOf(XAdjs(frame)) + 1, MaxOf(YAdjs(frame)) + 1;
    Page(c.colors, c.legend, Wrap(MapitCells(frame, c.colors, h, w)), h, w)
  }

  /** The page mapit renders for valid tiles, with a colour for every descriptor. */
  function PageOf(tiles: seq<Tile>, palette: Palette): (page: Page)
    requires |tiles| > 0
    ensures forall d :: d in page.colors <==> d in Descs(tiles)
  {
    var c := ColorMapping(Descs(tiles), palette);
    FrameColoredBy(tiles, c.colors);
    PageWith(AddAdjustedColumns(tiles), c)
  }

  /**
    The page's grid is as wide and as high as the tiles' bounding box and
    holds grid_height * grid_width cells between the opening and the closing
    wrapper.
  */
  lemma PageDimensions(tiles: seq<Tile>, palette: Palette)
    requires |tiles| > 0
    ensures var page := PageOf(tiles, palette); var b := BoundingBox(tiles);
      && page.gridWidth == b.xMax - b.xMin + 1 > 0
      && page.gridHeight == b.yMax - b.yMin + 1 > 0
      && |page.mapHtml| == page.gridWidth * page.gridHeight + 2
      && page.mapHtml[0] == GridOpen && page.mapHtml[|page.mapHtml| - 1] == GridClose
  {
    var frame := AddAdjustedColumns(tiles);
    var c := ColorMapping(Descs(tiles), palette);
    FrameColoredBy(tiles, c.colors);
    GridDimensions(tiles);
    var b := BoundingBox(tiles);
    assert b.xMin <= b.xMax && b.yMin <= b.yMax by {
      assert Xs(tiles)[0] == tiles[0].x && Ys(tiles)[0] == tiles[0].y;
    }
    PageWithShape(frame, c);
    assert PageWith(frame, c) == PageOf(tiles, palette);
  }

  lemma PageWithShape(frame: seq<Row>, c: Classification)
    requires |frame| > 0 && FrameColored(frame, c.colors)
    requires MaxOf(XAdjs(frame)) >= 0 && MaxOf(YAdjs(frame)) >= 0
    ensures var page := PageWith(frame, c);
      && |page.mapHtml| == page.gridWidth * page.gridHeight + 2
      && page.mapHtml[0] == GridOpen && page.mapHtml[|page.mapHtml| - 1] == GridClose
  {
    var page := PageWith(frame, c);
    MapitCellsSize(frame, c.colors, page.gridHeight, page.gridWidth);
  }

  /**
    The body of main after a file was chosen: stop when the map data is
    empty, otherwise add the adjusted columns, classify the descriptors and
    lay out the grid.  A missing column ends the run with a KeyError.
  */
  method Render(entry: MapEntry, palette: Palette) returns (r: Result<Page, RunError>)
    requires entry.NotAList? ==> entry.empty
    requires entry.Records? ==> ColumnsUniform(entry.items)
    ensures r.Err? <==> LoadFrame(entry).Err?
    ensures r.Err? ==> r.error == LoadFrame(entry).error
    ensures r.Ok? ==> r.value == PageOf(LoadFrame(entry).value, palette)
  {
    var loaded := LoadFrame(entry);
    if loaded.Err? {
      return Err(loaded.error);
    }
    var tiles := loaded.value;
    var frame := AddAdjustedColumns(tiles);
    var c, _ := CreateColorMapping(Descs(tiles), palette);
    FrameColoredBy(tiles, c.colors);
    var page := LayOut(frame, c);
    r := Ok(page);
  }

  /** The grid dimensions of the frame and its grid under classification c. */
  method LayOut(frame: seq<Row>, c: Classification) returns (page: Page)
    requires |frame| > 0 && FrameColored(frame, c.colors)
    ensures page == PageWith(frame, c)
  {
    var gridWidth := MaxOf(XAdjs(frame)) + 1;
    var gridHeight := MaxOf(YAdjs(frame)) + 1;
    var mapHtml := GenerateMapHtml(frame, c.colors, gridHeight, gridWidth);
    page := Page(c.colors, c.legend, mapHtml, gridHeight, gridWidth);
  }
}
