/**
  The interactive mapper (main.py): validate the "Map" array, classify the
  descriptors against the configured colour and label overrides, and lay the
  tiles out over their raw bounding box, the top row first.
*/
module MainMapper {
  import opened Results
  import opened MapData
  import opened Grid
  import opened Classifier
  import opened DescriptorFormat

  /** The configured colour overrides, keyed by exact descriptor. */
  const CustomColors: map<string, string> := map[
    "obsidian" := "#120014",
    "stone" := "#3b3a3a",
    "heart" := "#FF0000",
    "claimed" := "#0d9753",
    "enemyPath" := "#f0f0f0",
    "stairs" := "#FFFFFF",
    "gold" := "#FFD700",
    "secretstonecarved" := "#FFFF00",
    "secretbasement" := "#A9A9A9",
    "infinitemine" := "#D8BFD8"
  ]

  /** The configured label overrides, keyed by exact (all lower-case) descriptor. */
  const CustomLabels: map<string, string> := map[
    "enemypath" := "Enemy Path",
    "hornethive" := "Hornet Hive",
    "secretbasement" := "Secret Basement",
    "waterbridge" := "Water Bridge",
    "beetlenest" := "Beetle Nest",
    "factorybubble" := "Bubble Factory",
    "stonemine" := "Stone Mine",
    "enemypathmonastery" := "Enemy Path Monastery",
    "enemypathdesert" := "Enemy Path Desert",
    "heartcenter" := "Heart Center",
    "heartcenternofloor" := "Heart Center No Floor",
    "infinitemine" := "Infinite Gold Mine",
    "portalcenter" := "Portal Center",
    "portalbonefairy" := "Portal Bone Fairy",
    "portalbonefairycenter" := "Portal Bone Fairy Center",
    "sapperpath" := "Sapper Path",
    "guardpost" := "Guard Post",
    "secretobsidiancarved" := "Secret Obsidian Carved",
    "secretstonecarved" := "Secret Stone Carved",
    "secretstonesewer" := "Secret Stone Sewer"
  ]

  /** Why a run stops before rendering anything. */
  datatype LoadError =
    | MapNotAList       // "Map" holds something other than an array
    | NoMapData         // "Map" is absent or an empty array
    | InvalidColumns    // the data frame is empty or lacks X, Y or DescriptorID

  // ---------------------------------------------------------------------------
  // Loading and validation
  // ---------------------------------------------------------------------------

  /** load_map_data followed by the checks main makes before any rendering. */
  function LoadTiles(entry: MapEntry): (r: Result<seq<Tile>, LoadError>)
    requires entry.Records? ==> ColumnsUniform(entry.items)
    ensures r == Err(MapNotAList) <==> entry.NotAList?
    ensures r == Err(NoMapData) <==> entry.Missing? || entry == Records([])
    ensures r == Err(InvalidColumns) <==> entry.Records? && entry.items != [] && !HasRequiredColumns(entry.items)
    ensures r.Ok? ==>
      && entry.Records? && |r.value| == |entry.items| > 0
      && forall i :: 0 <= i < |r.value| ==>
           entry.items[i] == Record(Some(r.value[i].x), Some(r.value[i].y), Some(r.value[i].desc))
  {
    match entry
    case Missing => Err(NoMapData)
    case NotAList(_) => Err(MapNotAList)
    case Records(items) =>
      if items == [] then Err(NoMapData)
      else if !HasRequiredColumns(items) then Err(InvalidColumns)
      else
        UniformColumnsComplete(items);
        Ok(ToTiles(items))
  }

  // ---------------------------------------------------------------------------
  // Classification
  // ---------------------------------------------------------------------------

  /** The legend label of a descriptor: its configured label if it has one, else its formatted form. */
  function Label(desc: string, customLabels: map<string, string>): (text: string)
    ensures desc in customLabels ==> text == customLabels[desc]
    ensures desc !in customLabels ==> NoBoundary(text)
  {
    if desc in customLabels then customLabels[desc] else Format(desc)
  }

  /**
    create_color_mapping under the override tables customColors and
    customLabels: the colour of every distinct descriptor and one legend row
    per distinct descriptor, in order of first appearance.  main.py runs it
    with CustomColors and CustomLabels.
  */
  function CreateColorMapping(column: seq<string>, customColors: map<string, string>, customLabels: map<string, string>, palette: Palette): (c: Classification)
    ensures forall d :: d in c.colors <==> d in column
    ensures |c.legend| == |Unique(column)|
    ensures forall j :: 0 <= j < |c.legend| ==>
      c.legend[j] == LegendRow(Unique(column)[j], Label(Unique(column)[j], customLabels))
    ensures forall j :: 0 <= j < |Unique(column)| ==>
      c.colors[Unique(column)[j]] ==
        if Unique(column)[j] in customColors then customColors[Unique(column)[j]]
        else palette(|Unique(column)|, j)
  {
    var u := Unique(column);
    Classification(
      ColorTable(u, customColors, palette),
      seq(|u|, j requires 0 <= j < |u| => LegendRow(u[j], Label(u[j], customLabels))))
  }

  /**
    Override precedence: a descriptor with a configured colour or label shows
    it verbatim; any other is coloured by the palette at its position among
    the distinct descriptors and labelled by its formatted form.
  */
  lemma OverridePrecedence(column: seq<string>, customColors: map<string, string>, customLabels: map<string, string>, palette: Palette, j: nat)
    requires j < |Unique(column)|
    ensures var c := CreateColorMapping(column, customColors, customLabels, palette); var d := Unique(column)[j];
      && (d in customColors ==> c.colors[d] == customColors[d])
      && (d !in customColors ==> c.colors[d] == palette(|Unique(column)|, j))
      && (d in customLabels ==> c.legend[j].formatted == customLabels[d])
      && (d !in customLabels ==> c.legend[j].formatted == Format(d))
      && d in column && c.legend[j].desc == d
  {
  }

  /** The legend lists every descriptor of the column exactly once, in order of first appearance. */
  lemma LegendListsDistinctDescriptors(column: seq<string>, customColors: map<string, string>, customLabels: map<string, string>, palette: Palette)
    ensures var legend := CreateColorMapping(column, customColors, customLabels, palette).legend;
      && (forall d :: d in column <==> exists j :: 0 <= j < |legend| && legend[j].desc == d)
      && (forall i, j :: 0 <= i < j < |legend| ==> legend[i].desc != legend[j].desc)
      && (forall i, j :: 0 <= i < j < |legend| ==>
            legend[i].desc in column && legend[j].desc in column &&
            FirstIndex(column, legend[i].desc) < FirstIndex(column, legend[j].desc))
  {
    var legend := CreateColorMapping(column, customColors, customLabels, palette).legend;
    var u := Unique(column);
    assert forall j :: 0 <= j < |legend| ==> legend[j].desc == u[j];
    forall d | d in column ensures exists j :: 0 <= j < |legend| && legend[j].desc == d {
      assert legend[FirstIndex(u, d)].desc == d;
    }
  }

  /**
    When the palette gives distinct colours to the distinct descriptors, no two
    descriptors without a configured colour share a colour.
  */
  lemma DistinctPaletteColours(column: seq<string>, customColors: map<string, string>, customLabels: map<string, string>, palette: Palette, d1: string, d2: string)
    requires PaletteDistinct(palette, |Unique(column)|)
    requires d1 in column && d2 in column && d1 != d2
    requires d1 !in customColors && d2 !in customColors
    ensures var c := CreateColorMapping(column, customColors, customLabels, palette); c.colors[d1] != c.colors[d2]
  {
    var u := Unique(column);
    PaletteColoursDiffer(u, customColors, palette, FirstIndex(u, d1), FirstIndex(u, d2));
  }

  /** The label lookup is exact: "enemyPath" misses the "enemypath" entry and is formatted instead. */
  lemma EnemyPathLabel(desc: string)
    requires desc == "enemyPath"
    ensures desc !in CustomLabels
    ensures Label(desc, CustomLabels) == "Enemy Path"
  {
    assert desc == "enemy" + "Path";
    FormatCamelPair("enemy", "Path");
  }

  /** A lower-case word followed by a capitalised one is split and capitalised: "hornetHive" reads "Hornet Hive". */
  lemma HornetHiveFormat(desc: string)
    requires desc == "hornetHive"
    ensures Format(desc) == "Hornet Hive"
  {
    assert desc == "hornet" + "Hive";
    FormatCamelPair("hornet", "Hive");
  }

  // ---------------------------------------------------------------------------
  // The cell dictionary and the grid
  // ---------------------------------------------------------------------------

  /** The index of the last tile standing at (x, y), if any. */
  function LastIndexAt(tiles: seq<Tile>, x: int, y: int): (r: Option<nat>)
    ensures r.None? <==> forall i :: 0 <= i < |tiles| ==> !At(tiles[i], x, y)
    ensures r.Some? ==>
      && r.value < |tiles| && At(tiles[r.value], x, y)
      && forall j :: r.value < j < |tiles| ==> !At(tiles[j], x, y)
  {
    if tiles == [] then None
    else
      var n := |tiles| - 1;
      if At(tiles[n], x, y) then Some(n)
      else
        var r := LastIndexAt(tiles[..n], x, y);
        assert forall i :: 0 <= i < n ==> tiles[..n][i] == tiles[i];
        r
  }

  /**
    map_cell_dict: the tiles keyed by (Y, X), built in input order, so that a
    later tile at the same coordinate replaces an earlier one.
  */
  function CellDict(tiles: seq<Tile>): (m: map<(int, int), Tile>)
    ensures forall p :: p in m <==> LastIndexAt(tiles, p.1, p.0).Some?
    ensures forall p :: p in m ==> m[p] == tiles[LastIndexAt(tiles, p.1, p.0).value]
  {
    if tiles == [] then map[]
    else
      var n := |tiles| - 1;
      var t := tiles[n];
      var m := CellDict(tiles[..n])[(t.y, t.x) := t];
      assert forall i :: 0 <= i < n ==> tiles[..n][i] == tiles[i];
      m
  }

  /** Every descriptor held in the dictionary has a colour. */
  predicate Colored(dict: map<(int, int), Tile>, colors: map<string, string>) {
    forall p :: p in dict ==> dict[p].desc in colors
  }

  /** The cell generate_map_html_optimized emits for (x, y). */
  function MainCell(dict: map<(int, int), Tile>, colors: map<string, string>, x: int, y: int): (c: Cell)
    requires Colored(dict, colors)
    ensures Position(c) == (x, y)
    ensures c.Filled? <==> (y, x) in dict
  {
    if (y, x) in dict then Filled(x, y, dict[(y, x)].desc, colors[dict[(y, x)].desc])
    else Empty(x, y)
  }

  /**
    The cells of box b in output order: row y = yMax first, down to yMin, and
    within a row x = xMin up to xMax; cell k stands at
    (xMin + k % width, yMax - k / width).
  */
  function MainCells(dict: map<(int, int), Tile>, colors: map<string, string>, b: Box): (cells: seq<Cell>)
    requires Colored(dict, colors)
    ensures |cells| == RangeLen(b.xMin, b.xMax + 1) * RangeLen(b.yMin, b.yMax + 1)
  {
    var w := RangeLen(b.xMin, b.xMax + 1);
    var h := RangeLen(b.yMin, b.yMax + 1);
    if w == 0 then []
    else seq(w * h, k requires 0 <= k => MainCell(dict, colors, b.xMin + k % w, b.yMax - k / w))
  }

  /** Cell k of a non-empty box's grid stands at (xMin + k % width, yMax - k / width). */
  lemma MainCellsAt(dict: map<(int, int), Tile>, colors: map<string, string>, b: Box, k: int)
    requires Colored(dict, colors) && b.xMin <= b.xMax
    requires 0 <= k < |MainCells(dict, colors, b)|
    ensures var w := b.xMax - b.xMin + 1;
      MainCells(dict, colors, b)[k] == MainCell(dict, colors, b.xMin + k % w, b.yMax - k / w)
  {
    assert RangeLen(b.xMin, b.xMax + 1) == b.xMax - b.xMin + 1;
  }

  /** The first x - xMin cells of row y. */
  function RowCells(dict: map<(int, int), Tile>, colors: map<string, string>, xMin: int, x: int, y: int): seq<Cell>
    requires Colored(dict, colors)
  {
    seq(RangeLen(xMin, x), i requires 0 <= i => MainCell(dict, colors, xMin + i, y))
  }

  /** Row y up to x + 1 is row y up to x followed by the cell of (x, y). */
  lemma RowCellsSnoc(dict: map<(int, int), Tile>, colors: map<string, string>, xMin: int, x: int, y: int)
    requires Colored(dict, colors) && xMin <= x
    ensures RowCells(dict, colors, xMin, x + 1, y) == RowCells(dict, colors, xMin, x, y) + [MainCell(dict, colors, x, y)]
  {
    assert RangeLen(xMin, x + 1) == RangeLen(xMin, x) + 1;
  }

  /** Appending row y to the rows above it gives the grid down to row y. */
  lemma MainCellsAddRow(dict: map<(int, int), Tile>, colors: map<string, string>, xMin: int, xMax: int, y: int, yMax: int)
    requires Colored(dict, colors) && y <= yMax
    ensures MainCells(dict, colors, Box(xMin, xMax, y + 1, yMax)) + RowCells(dict, colors, xMin, xMax + 1, y)
         == MainCells(dict, colors, Box(xMin, xMax, y, yMax))
  {
    var w := RangeLen(xMin, xMax + 1);
    if w > 0 {
      var above := MainCells(dict, colors, Box(xMin, xMax, y + 1, yMax));
      var row := RowCells(dict, colors, xMin, xMax + 1, y);
      var all := MainCells(dict, colors, Box(xMin, xMax, y, yMax));
      var h := yMax - y;
      assert |above| == w * h;
      assert |all| == w * h + w;
      forall k | 0 <= k < |all| ensures (above + row)[k] == all[k] {
        if k >= w * h {
          var i := k - w * h;
          DivModOfIndex(h, i, w);
          assert k == h * w + i;
        }
      }
    }
  }

  /**
    generate_map_html_optimized: look every coordinate of the box up in the
    cell dictionary, the top row first, and wrap the cells in the grid element.
  */
  method GenerateMapHtmlOptimized(tiles: seq<Tile>, colors: map<string, string>, xMin: int, xMax: int, yMin: int, yMax: int)
    returns (html: seq<MapItem>)
    requires forall i :: 0 <= i < |tiles| ==> tiles[i].desc in colors
    ensures Colored(CellDict(tiles), colors)
    ensures html == Wrap(MainCells(CellDict(tiles), colors, Box(xMin, xMax, yMin, yMax)))
  {
    var dict := CellDict(tiles);
    var cells: seq<Cell> := [];
    var y := yMax;
    while y >= yMin
      invariant y <= yMax && (yMin - 1 <= y || y == yMax)
      invariant cells == MainCells(dict, colors, Box(xMin, xMax, y + 1, yMax))
      decreases y - yMin + 1
    {
      ghost var above := cells;
      var x := xMin;
      while x <= xMax
        invariant xMin <= x && (x <= xMax + 1 || x == xMin)
        invariant cells == above + RowCells(dict, colors, xMin, x, y)
        decreases xMax - x + 1
      {
        if (y, x) in dict {
          var desc := dict[(y, x)].desc;
          var color := colors[desc];
          cells := cells + [Filled(x, y, desc, color)];
        } else {
          cells := cells + [Empty(x, y)];
        }
        RowCellsSnoc(dict, colors, xMin, x, y);
        x := x + 1;
      }
      assert RowCells(dict, colors, xMin, x, y) == RowCells(dict, colors, xMin, xMax + 1, y);
      MainCellsAddRow(dict, colors, xMin, xMax, y, yMax);
      y := y - 1;
    }
    assert MainCells(dict, colors, Box(xMin, xMax, y + 1, yMax)) == MainCells(dict, colors, Box(xMin, xMax, yMin, yMax));
    html := Wrap(cells);
  }

  /** Where (x, y) stands in the output order of box b. */
  function CellIndex(b: Box, x: int, y: int): int {
    (b.yMax - y) * RangeLen(b.xMin, b.xMax + 1) + (x - b.xMin)
  }

  /**
    The grid of box b has one cell per coordinate of the box: its size is the
    box's width times its height, every cell stands inside the box, no two at
    the same coordinate, and (x, y) is drawn at CellIndex(b, x, y).
  */
  lemma MainCellsCoverBox(dict: map<(int, int), Tile>, colors: map<string, string>, b: Box)
    requires Colored(dict, colors)
    ensures var cells := MainCells(dict, colors, b);
      && |cells| == RangeLen(b.xMin, b.xMax + 1) * RangeLen(b.yMin, b.yMax + 1)
      && (forall k :: 0 <= k < |cells| ==> InBox(b, cells[k].x, cells[k].y))
      && DistinctPositions(cells)
      && forall x, y :: InBox(b, x, y) ==>
           0 <= CellIndex(b, x, y) < |cells| && cells[CellIndex(b, x, y)] == MainCell(dict, colors, x, y)
  {
    MainCellsInBox(dict, colors, b);
    MainCellsDistinct(dict, colors, b);
    MainCellsIndexed(dict, colors, b);
  }

  /** Every cell of box b's grid stands inside the box. */
  lemma MainCellsInBox(dict: map<(int, int), Tile>, colors: map<string, string>, b: Box)
    requires Colored(dict, colors)
    ensures var cells := MainCells(dict, colors, b);
      && |cells| == RangeLen(b.xMin, b.xMax + 1) * RangeLen(b.yMin, b.yMax + 1)
      && forall k :: 0 <= k < |cells| ==> InBox(b, cells[k].x, cells[k].y)
  {
    var cells := MainCells(dict, colors, b);
    var w, h := RangeLen(b.xMin, b.xMax + 1), RangeLen(b.yMin, b.yMax + 1);
    forall k | 0 <= k < |cells| ensures InBox(b, cells[k].x, cells[k].y) {
      RowMajorSplit(k, w, h);
    }
  }

  /** No two cells of box b's grid stand at the same coordinate. */
  lemma MainCellsDistinct(dict: map<(int, int), Tile>, colors: map<string, string>, b: Box)
    requires Colored(dict, colors)
    ensures DistinctPositions(MainCells(dict, colors, b))
  {
    var cells := MainCells(dict, colors, b);
    var w, h := RangeLen(b.xMin, b.xMax + 1), RangeLen(b.yMin, b.yMax + 1);
    forall i, j | 0 <= i < j < |cells| ensures Position(cells[i]) != Position(cells[j]) {
      RowMajorSplit(i, w, h);
      RowMajorSplit(j, w, h);
    }
  }

  /** The cell for a coordinate of box b sits at CellIndex in the box's grid. */
  lemma MainCellsIndexed(dict: map<(int, int), Tile>, colors: map<string, string>, b: Box)
    requires Colored(dict, colors)
    ensures var cells := MainCells(dict, colors, b);
      forall x, y :: InBox(b, x, y) ==>
        0 <= CellIndex(b, x, y) < |cells| && cells[CellIndex(b, x, y)] == MainCell(dict, colors, x, y)
  {
    var cells := MainCells(dict, colors, b);
    var w, h := RangeLen(b.xMin, b.xMax + 1), RangeLen(b.yMin, b.yMax + 1);
    forall x, y | InBox(b, x, y)
      ensures 0 <= CellIndex(b, x, y) < |cells| && cells[CellIndex(b, x, y)] == MainCell(dict, colors, x, y)
    {
      var q, r := b.yMax - y, x - b.xMin;
      IndexBelowProduct(q, r, w, h);
      DivModOfIndex(q, r, w);
    }
  }


  /**
    A cell of the grid is filled exactly when some tile stands at its
    coordinate; it then shows the last such tile's descriptor in that
    descriptor's colour.
  */
  lemma MainCellFilledIff(tiles: seq<Tile>, colors: map<string, string>, x: int, y: int)
    requires Colored(CellDict(tiles), colors)
    ensures var c := MainCell(CellDict(tiles), colors, x, y);
      && Position(c) == (x, y)
      && (c.Filled? <==> exists i :: 0 <= i < |tiles| && At(tiles[i], x, y))
      && (c.Filled? ==>
            && c.desc == tiles[LastIndexAt(tiles, x, y).value].desc
            && c.color == colors[c.desc])
  {
    var r := LastIndexAt(tiles, x, y);
    if r.Some? {
      assert At(tiles[r.value], x, y);
    }
  }

  /** The cell at (x, y) shows the last tile standing there, or is empty when none does. */
  lemma MainCellOfIndex(tiles: seq<Tile>, colors: map<string, string>, x: int, y: int)
    requires Colored(CellDict(tiles), colors)
    ensures var r := LastIndexAt(tiles, x, y);
      && (r.Some? ==>
            (tiles[r.value].desc in colors
             && MainCell(CellDict(tiles), colors, x, y) == Filled(x, y, tiles[r.value].desc, colors[tiles[r.value].desc])))
      && (r.None? ==> MainCell(CellDict(tiles), colors, x, y) == Empty(x, y))
  {
    var r := LastIndexAt(tiles, x, y);
    if r.Some? {
      assert (y, x) in CellDict(tiles);
    }
  }

  /**
    Every tile lies in the bounding box, so the grid of the bounding box has
    as many filled cells as there are distinct tile coordinates, and as many
    as there are tiles when no two tiles share a coordinate.
  */
  lemma {:induction false} FilledCountIsCoordCount(tiles: seq<Tile>, colors: map<string, string>)
    requires |tiles| > 0 && Colored(CellDict(tiles), colors)
    ensures FilledCount(MainCells(CellDict(tiles), colors, BoundingBox(tiles))) == |CoordSet(tiles)|
    ensures UniqueCoords(tiles) ==> FilledCount(MainCells(CellDict(tiles), colors, BoundingBox(tiles))) == |tiles|
  {
    var cells := MainCells(CellDict(tiles), colors, BoundingBox(tiles));
    MainCellsCoverBox(CellDict(tiles), colors, BoundingBox(tiles));
    FilledCountIsFilledPositions(cells);
    FilledPositionsAreTileCoords(tiles, colors);
    TileCoordsAreFilled(tiles, colors);
    assert FilledPositions(cells) == CoordSet(tiles);
    if UniqueCoords(tiles) {
      UniqueCoordsCount(tiles);
    }
  }

  lemma FilledPositionsAreTileCoords(tiles: seq<Tile>, colors: map<string, string>)
    requires |tiles| > 0 && Colored(CellDict(tiles), colors)
    ensures FilledPositions(MainCells(CellDict(tiles), colors, BoundingBox(tiles))) <= CoordSet(tiles)
  {
    var dict := CellDict(tiles);
    var b := BoundingBox(tiles);
    var cells := MainCells(dict, colors, b);
    MainCellsCoverBox(dict, colors, b);
    forall p | p in FilledPositions(cells) ensures p in CoordSet(tiles) {
      var k :| 0 <= k < |cells| && cells[k].Filled? && Position(cells[k]) == p;
      FilledCellHasTile(dict, colors, b, k);
      var i := LastIndexAt(tiles, p.0, p.1).value;
      assert (tiles[i].x, tiles[i].y) == p;
    }
  }

  /** A filled cell of the grid stands where the dictionary holds a tile. */
  lemma FilledCellHasTile(dict: map<(int, int), Tile>, colors: map<string, string>, b: Box, k: int)
    requires Colored(dict, colors)
    requires 0 <= k < |MainCells(dict, colors, b)| && MainCells(dict, colors, b)[k].Filled?
    ensures var c := MainCells(dict, colors, b)[k]; (c.y, c.x) in dict
  {
  }

  lemma TileCoordsAreFilled(tiles: seq<Tile>, colors: map<string, string>)
    requires |tiles| > 0 && Colored(CellDict(tiles), colors)
    ensures CoordSet(tiles) <= FilledPositions(MainCells(CellDict(tiles), colors, BoundingBox(tiles)))
  {
    forall p | p in CoordSet(tiles) ensures p in FilledPositions(MainCells(CellDict(tiles), colors, BoundingBox(tiles))) {
      var i :| 0 <= i < |tiles| && p == (tiles[i].x, tiles[i].y);
      TileIsFilled(tiles, colors, i);
    }
  }

  lemma TileIsFilled(tiles: seq<Tile>, colors: map<string, string>, i: nat)
    requires i < |tiles| && Colored(CellDict(tiles), colors)
    ensures (tiles[i].x, tiles[i].y) in FilledPositions(MainCells(CellDict(tiles), colors, BoundingBox(tiles)))
  {
    TileInBox(tiles, i);
    TileInDict(tiles, i);
    CellOfPoint(CellDict(tiles), colors, BoundingBox(tiles), tiles[i].x, tiles[i].y);
  }

  lemma TileInBox(tiles: seq<Tile>, i: nat)
    requires i < |tiles|
    ensures InBox(BoundingBox(tiles), tiles[i].x, tiles[i].y)
  {
    BoundingBoxIsTight(tiles);
  }

  lemma TileInDict(tiles: seq<Tile>, i: nat)
    requires i < |tiles|
    ensures (tiles[i].y, tiles[i].x) in CellDict(tiles)
  {
    assert At(tiles[i], tiles[i].x, tiles[i].y);
  }

  /** A coordinate of the box that the dictionary holds is drawn as a filled cell. */
  lemma CellOfPoint(dict: map<(int, int), Tile>, colors: map<string, string>, b: Box, x: int, y: int)
    requires Colored(dict, colors) && InBox(b, x, y) && (y, x) in dict
    ensures (x, y) in FilledPositions(MainCells(dict, colors, b))
  {
    var cells := MainCells(dict, colors, b);
    MainCellsCoverBox(dict, colors, b);
    var k := CellIndex(b, x, y);
    assert cells[k].Filled? && Position(cells[k]) == (x, y);
  }

  /** Two tiles at (0, 0) and (5, 5) give a dense 6 by 6 grid with 2 filled and 34 empty cells. */
  lemma {:induction false} SparseGrid(tiles: seq<Tile>, colors: map<string, string>)
    requires |tiles| == 2 && At(tiles[0], 0, 0) && At(tiles[1], 5, 5)
    requires tiles[0].desc in colors && tiles[1].desc in colors
    ensures Colored(CellDict(tiles), colors)
    ensures var cells := MainCells(CellDict(tiles), colors, BoundingBox(tiles));
      |cells| == 36 && FilledCount(cells) == 2 && |cells| - FilledCount(cells) == 34
  {
    SparseFacts(tiles, colors);
    FilledCountIsCoordCount(tiles, colors);
    assert |MainCells(CellDict(tiles), colors, BoundingBox(tiles))| == 6 * 6;
  }

  lemma SparseFacts(tiles: seq<Tile>, colors: map<string, string>)
    requires |tiles| == 2 && At(tiles[0], 0, 0) && At(tiles[1], 5, 5)
    requires tiles[0].desc in colors && tiles[1].desc in colors
    ensures BoundingBox(tiles) == Box(0, 5, 0, 5)
    ensures Colored(CellDict(tiles), colors) && UniqueCoords(tiles)
  {
    var dict := CellDict(tiles);
    assert Xs(tiles) == [0, 5] && Ys(tiles) == [0, 5];
    forall p | p in dict ensures dict[p].desc in colors {
      assert LastIndexAt(tiles, p.1, p.0).value < 2;
    }
  }

  // ---------------------------------------------------------------------------
  // One run
  // ---------------------------------------------------------------------------

  /** A colour table that colours every tile colours every descriptor the cell dictionary holds. */
  lemma DictHoldsTiles(tiles: seq<Tile>, colors: map<string, string>)
    requires forall i :: 0 <= i < |tiles| ==> tiles[i].desc in colors
    ensures Colored(CellDict(tiles), colors)
  {
  }

  /**
    The page for valid tiles under classification c: its colour table and
    legend, the grid of the bounding box, and the box's height and width.
  */
  function PageWith(tiles: seq<Tile>, c: Classification): (page: Page)
    requires |tiles| > 0 && forall i :: 0 <= i < |tiles| ==> tiles[i].desc in c.colors
    ensures page.colors == c.colors && page.legend == c.legend
    ensures Colored(CellDict(tiles), c.colors)
    ensures page.mapHtml == Wrap(MainCells(CellDict(tiles), c.colors, BoundingBox(tiles)))
    ensures page.gridHeight > 0 && page.gridWidth > 0
    ensures var b := BoundingBox(tiles); page.gridWidth == b.xMax - b.xMin + 1 && page.gridHeight == b.yMax - b.yMin + 1
    ensures |page.mapHtml| == page.gridWidth * page.gridHeight + 2
    ensures page.mapHtml[0] == GridOpen && page.mapHtml[|page.mapHtml| - 1] == GridClose
  {
    var b := BoundingBox(tiles);
    DictHoldsTiles(tiles, c.colors);
    MainCellsCoverBox(CellDict(tiles), c.colors, b);
    assert b.xMin <= b.xMax && b.yMin <= b.yMax by {
      assert Xs(tiles)[0] == tiles[0].x && Ys(tiles)[0] == tiles[0].y;
    }
    var cells := MainCells(CellDict(tiles), c.colors, b);
    var w, h := b.xMax - b.xMin + 1, b.yMax - b.yMin + 1;
    assert RangeLen(b.xMin, b.xMax + 1) == w && RangeLen(b.yMin, b.yMax + 1) == h;
    assert |cells| == w * h;
    Page(c.colors, c.legend, Wrap(cells), h, w)
  }

  /** The page main renders for valid tiles, classified under the configured overrides. */
  function PageOf(tiles: seq<Tile>, palette: Palette): (page: Page)
    requires |tiles| > 0
    ensures forall d :: d in page.colors <==> d in Descs(tiles)
  {
    var c := CreateColorMapping(Descs(tiles), CustomColors, CustomLabels, palette);
    EveryTileColored(tiles, c.colors);
    PageWith(tiles, c)
  }

  /**
    The body of one pass of main after a file was chosen: validate the map
    data, take the bounding box, classify the descriptors and lay out the grid.
    It stops with the first failed check, or renders the page of the tiles.
  */
  method Render(entry: MapEntry, palette: Palette) returns (r: Result<Page, LoadError>)
    requires entry.Records? ==> ColumnsUniform(entry.items)
    ensures r.Err? <==> LoadTiles(entry).Err?
    ensures r.Err? ==> r.error == LoadTiles(entry).error
    ensures r.Ok? ==> r.value == PageOf(LoadTiles(entry).value, palette)
  {
    var loaded := LoadTiles(entry);
    if loaded.Err? {
      return Err(loaded.error);
    }
    var tiles := loaded.value;
    var c := CreateColorMapping(Descs(tiles), CustomColors, CustomLabels, palette);
    EveryTileColored(tiles, c.colors);
    var page := LayOut(tiles, c);
    r := Ok(page);
  }

  /** The bounding box of the tiles and their grid under classification c. */
  method LayOut(tiles: seq<Tile>, c: Classification) returns (page: Page)
    requires |tiles| > 0 && forall i :: 0 <= i < |tiles| ==> tiles[i].desc in c.colors
    ensures page == PageWith(tiles, c)
  {
    var xMin, xMax := MinOf(Xs(tiles)), MaxOf(Xs(tiles));
    var yMin, yMax := MinOf(Ys(tiles)), MaxOf(Ys(tiles));
    var gridWidth := xMax - xMin + 1;
    var gridHeight := yMax - yMin + 1;
    var mapHtml := GenerateMapHtmlOptimized(tiles, c.colors, xMin, xMax, yMin, yMax);
    page := Page(c.colors, c.legend, mapHtml, gridHeight, gridWidth);
  }

  /** A colour table keyed by the DescriptorID column colours every tile. */
  lemma EveryTileColored(tiles: seq<Tile>, colors: map<string, string>)
    requires forall d :: d in colors <==> d in Descs(tiles)
    ensures forall i :: 0 <= i < |tiles| ==> tiles[i].desc in colors
  {
    forall i | 0 <= i < |tiles| ensures tiles[i].desc in colors {
      assert Descs(tiles)[i] == tiles[i].desc;
    }
  }
}
