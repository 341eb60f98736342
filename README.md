# Save mapper: from tiles to the map grid

The save mapper reads the `"Map"` array of a game save. Each tile in it has
`X`, `Y` and `DescriptorID`. From these tiles it renders an HTML map with one
coloured square per tile and a legend of descriptors. Two scripts do this:

- `main.py` is the interactive mapper. It validates the map data, colours and
  labels the descriptors with configured overrides, and lays the tiles out
  over their raw bounding box. The cell dictionary is keyed by coordinate, so
  when two tiles share a coordinate the last one wins.
- `mapit.py` is a separate renderer. It checks only that the map data is not
  empty. It adds zero-based `X_adj`/`Y_adj` columns, draws palette colours
  from a list it empties as it goes, and scans the frame for the first tile at
  each adjusted coordinate.

The model covers the step from the list of tiles to the grid markup in both
scripts. It is split into these modules:

- `DescriptorFormat` (`descriptor_format.dfy`): the label formatter, which is
  a regex split at lower-to-upper boundaries followed by `str.title()`.
- `MapData` (`map_data.dfy`): tiles, raw records, column extrema, the bounding
  box and the set of occupied coordinates.
- `Classifier` (`classifier.dfy`): the distinct descriptors in first-appearance
  order, and the colour table. The palette is a parameter
  `Palette(n, i)`; its colour values are not modelled.
- `Grid` (`grid.dfy`): cells (`Empty` or `Filled`), the grid wrapper, and
  row-major index arithmetic.
- `MainMapper` (`main_mapper.dfy`): `main.py`'s validation, classification,
  cell dictionary, the nested-loop renderer (an imperative method proved equal
  to the specification function `MainCells`) and one run of `main`.
- `Mapit` (`mapit.dfy`): `mapit.py`'s loading, the adjusted columns, the
  pop-based colour draw (a method with a loop that empties the colour list),
  the nested-loop renderer and one run of `main`.
- `Variants` (`variants.dfy`): the two renderers compared. With unique
  coordinates their grids agree cell by cell, mapit's shifted to a zero
  origin. With a shared coordinate main shows the last tile and mapit the
  first.

The colour rule is sometimes described as "palette position modulo the
palette size", cycling after 20 colours. The code does something else: it
resamples the colormap to `N = len(unique)` entries, so `i % N` never wraps.
The model follows the code (`Classifier.ColormapIndex`).

## Model

| member | source | states |
|---|---|---|
| DescriptorFormat.ToLower | main.py:114 | lower-casing keeps a character's casedness, leaves no upper-case letter, and fixes lower-case letters |
| DescriptorFormat.ToUpper | main.py:114 | upper-casing keeps a character's casedness, leaves no lower-case letter, and fixes upper-case letters |
| DescriptorFormat.CaseMapsAbsorb | main.py:114 | applying either case map after either case map equals applying the outer one alone |
| DescriptorFormat.SplitWords | main.py:114 | the regex substitution inserts at most one space per character, so the result is at least as long as the identifier and at most twice as long |
| DescriptorFormat.SplitWordsShape | main.py:114 | the regex substitution adds exactly one character per lowercase-to-uppercase boundary, keeps the first character, and leaves no boundary behind |
| DescriptorFormat.SplitWordsAppend | main.py:114 | the substitution on a concatenation is the substitution on each piece, plus one space exactly when the junction is a boundary |
| DescriptorFormat.SplitWordsPlacement | main.py:114 | every input character reappears in order, shifted by the number of spaces inserted before it, and has a space in front of it when it starts a boundary |
| DescriptorFormat.SplitWordsIdentity | main.py:114 | where the pattern matches nowhere, the substitution changes nothing |
| DescriptorFormat.TitleFrom | main.py:114 | the str.title() scan keeps the length, and character i is lower-cased after a cased character and upper-cased otherwise |
| DescriptorFormat.Title | main.py:114 | str.title() on ASCII text: a letter after a letter is lower-cased, any other letter is upper-cased, other characters are kept |
| DescriptorFormat.TitleHasNoBoundary | main.py:114 | title-cased text has no lowercase letter directly followed by an uppercase one |
| DescriptorFormat.TitleIdempotent | main.py:114 | title-casing twice equals title-casing once |
| DescriptorFormat.Format | main.py:113-114 | format_descriptor_id's result has no lowercase-to-uppercase boundary |
| DescriptorFormat.FormatShape | main.py:113-114 | the label is the identifier's length plus one per boundary, and each identifier character reappears, up to case, after the spaces inserted before it, with a space in front at each boundary |
| DescriptorFormat.FormatIdempotent | main.py:113-114 | formatting an already formatted label changes nothing |
| DescriptorFormat.FormatFixedPoints | mapit.py:48-49 | a string is unchanged by the formatter exactly when it is already title-cased |
| DescriptorFormat.FormatCamelPair | mapit.py:48-49 | a lowercase word followed by a capitalised word becomes the two words, capitalised and separated by one space |
| DescriptorFormat.TitleOfSpacedPair | main.py:114 | title-casing "word Word" capitalises the first word and keeps the second |
| MapData.UniformColumnsComplete | main.py:249-259 | in a record array whose records all carry the same keys, having the X, Y and DescriptorID columns means every record carries all three |
| MapData.ToTiles | main.py:249 | pd.DataFrame(map_data) has one row per record, and row i carries record i's X, Y and DescriptorID |
| MapData.MinOf | main.py:261-262 | Series.min() is at most every value of the column and is attained by some row |
| MapData.MaxOf | main.py:261-262 | Series.max() is at least every value of the column and is attained by some row |
| MapData.BoundingBox | main.py:261-262 | for a non-empty frame, x_min <= x_max and y_min <= y_max, so the grid width and height are positive |
| MapData.BoundingBoxIsTight | main.py:261-262 | every tile lies in the box [x_min..x_max] x [y_min..y_max], and each side of the box is touched by some tile |
| MapData.UniqueCoordsCount | main.py:151 | when no two tiles share a coordinate, the set of occupied coordinates has as many elements as there are tiles |
| Classifier.FirstIndex | main.py:121 | the first-occurrence position holds the value and nothing before it does |
| Classifier.Unique | main.py:121 | Series.unique() has no duplicates, holds exactly the column's values, and lists them in order of first appearance |
| Classifier.FirstIndexOfExtension | main.py:121 | appending a value does not move any earlier first occurrence, and a new value first occurs at the old length |
| Classifier.UniqueCountsDistinctValues | main.py:121 | the distinct list is as long as the set of the column's values |
| Classifier.DistinctCardinality | main.py:121 | a duplicate-free list is as long as the set of its elements |
| Classifier.ColormapIndex | main.py:133-135 | for positions of the distinct descriptors, i % colormap.N with N = len(unique) is i |
| Classifier.ColorTable | main.py:134-137 | the table's keys are exactly the distinct descriptors; each gets its override colour verbatim, or else palette entry j for its position j |
| Classifier.PaletteColoursDiffer | main.py:133-137 | with a palette of distinct colours, two distinct descriptors that both fall back to the palette get different colours |
| Grid.Wrap | main.py:168 | the markup is the opening wrapper, then every cell in order, then the closing wrapper |
| MainMapper.LoadTiles | main.py:245-259 | a non-list "Map" gives MapNotAList; an absent or empty one gives NoMapData; a missing X, Y or DescriptorID column gives InvalidColumns; each error iff its condition holds; otherwise the tiles are the records row by row |
| MainMapper.CreateColorMapping | main.py:117-139 | the colour keys are exactly the column's descriptors; one legend row per distinct descriptor in first-appearance order with its override label or formatted form; colour is the override or else palette entry j of len(unique) |
| MainMapper.OverridePrecedence | main.py:127-135 | a configured colour or label is used verbatim; otherwise the palette colour at the descriptor's position, and its formatted form |
| MainMapper.LegendListsDistinctDescriptors | main.py:121-130 | the legend names every descriptor of the column, each once, ordered by first appearance |
| MainMapper.DistinctPaletteColours | main.py:133-137 | with a palette of distinct colours, two different descriptors without a configured colour get different colours |
| MainMapper.EnemyPathLabel | main.py:29-50 | "enemyPath" is not a label key (the lookup is case-sensitive), and it is labelled "Enemy Path" by the formatter |
| MainMapper.HornetHiveFormat | main.py:113-114 | "hornetHive" is formatted as "Hornet Hive" |
| MainMapper.Label | main.py:127 | custom_labels.get(desc, format_descriptor_id(desc)): a configured label verbatim, and otherwise a label with no lowercase-to-uppercase boundary |
| MainMapper.LastIndexAt | main.py:151 | returns no index exactly when no tile stands at (x, y); otherwise the index of a tile standing there after which none does |
| MainMapper.CellDict | main.py:151 | the dictionary holds (y, x) iff some tile stands at (x, y), and it maps it to the last such tile |
| MainMapper.MainCell | main.py:156-166 | the cell of (x, y) stands at (x, y), and it is filled iff the cell dictionary holds (y, x) |
| MainMapper.MainCells | main.py:154-166 | the grid of the box has one cell per x in [x_min..x_max] for each y in [y_min..y_max] |
| MainMapper.RowCellsSnoc | main.py:155-166 | row y up to x + 1 is row y up to x followed by the cell of (x, y), which is what one inner iteration appends |
| MainMapper.MainCellsAt | main.py:154-155 | cell k of the box's grid is the cell of (x_min + k % width, y_max - k / width) |
| MainMapper.MainCellsAddRow | main.py:154-167 | appending row y to the rows above it gives the grid down to row y |
| MainMapper.GenerateMapHtmlOptimized | main.py:142-168 | the nested loops produce the grid wrapper around the cells of the box, top row first and x ascending, each looked up in the cell dictionary |
| MainMapper.MainCellsCoverBox | main.py:154-155 | the grid has width*height cells, all inside the box and at distinct coordinates, and (x, y) is drawn at position (y_max - y) * width + (x - x_min) |
| MainMapper.MainCellsInBox | main.py:154-155 | the grid has width*height cells and each lies inside the box |
| MainMapper.MainCellsDistinct | main.py:154-155 | no two cells of the grid stand at the same coordinate |
| MainMapper.MainCellsIndexed | main.py:154-155 | coordinate (x, y) of the box is drawn at position (y_max - y) * width + (x - x_min) |
| MainMapper.MainCellFilledIff | main.py:156-166 | a cell is filled iff some tile stands at its coordinate; it then shows the last such tile's descriptor in that descriptor's colour |
| MainMapper.MainCellOfIndex | main.py:156-166 | the cell at (x, y) is Filled with the last tile's descriptor and colour, or Empty when no tile stands there |
| MainMapper.FilledCountIsCoordCount | main.py:151-163 | the bounding box's grid has as many filled cells as there are distinct tile coordinates, and as many as there are tiles when coordinates are unique |
| MainMapper.FilledPositionsAreTileCoords | main.py:156-163 | every filled cell stands at a tile's coordinate |
| MainMapper.FilledCellHasTile | main.py:156-157 | a filled cell stands where the dictionary holds a tile |
| MainMapper.TileCoordsAreFilled | main.py:156-163 | every tile's coordinate is a filled cell of the bounding box's grid |
| MainMapper.TileIsFilled | main.py:156-163 | tile i's coordinate is a filled cell of the bounding box's grid |
| MainMapper.CellOfPoint | main.py:156-163 | a coordinate in the box that the dictionary holds is drawn as a filled cell |
| MainMapper.SparseGrid | main.py:151-168 | tiles at (0, 0) and (5, 5) give 36 cells: 2 filled and 34 empty |
| MainMapper.SparseFacts | main.py:261-262 | the bounding box of tiles at (0, 0) and (5, 5) is [0..5] x [0..5] and their coordinates are unique |
| MainMapper.DictHoldsTiles | main.py:151-159 | a table that colours every tile colours every dictionary entry, so the lookup of line 159 never fails |
| MainMapper.PageWith | main.py:261-272 | the page carries the classification's colours and legend, and its markup wraps the box grid looked up in the cell dictionary; the grid is as wide and as high as the bounding box, both positive, and holds width*height cells between the opening and closing wrapper |
| MainMapper.PageOf | main.py:261-272 | the page's colour keys are exactly the tiles' descriptors |
| MainMapper.Render | main.py:244-272 | the run fails iff validation fails, with the same error; otherwise it renders the page of the loaded tiles |
| MainMapper.LayOut | main.py:261-272 | computing min/max and running the renderer gives the page of the tiles |
| MainMapper.EveryTileColored | main.py:159 | a colour table keyed by the DescriptorID column colours every tile |
| Mapit.LoadFrame | mapit.py:197-203 | an absent or empty "Map" (an empty list, or any other falsy value) gives NoMapData; a missing column gives MissingColumn; each error iff its condition holds; otherwise the tiles are the records row by row |
| Mapit.AddAdjustedColumns | mapit.py:202-203 | every row keeps its X, Y and DescriptorID |
| Mapit.AdjustedFromOrigin | mapit.py:203 | X_adj = X - min X and Y_adj = Y - min Y are never negative, and each column reaches 0 |
| Mapit.MaxOfIsAttainedBound | mapit.py:206-207 | a value that bounds a column from above and appears in it is the column's max() |
| Mapit.GridDimensions | mapit.py:203-207 | grid_width = max X_adj + 1 and grid_height = max Y_adj + 1 are the bounding box's width and height |
| Mapit.ColorMapping | mapit.py:51-67 | the colour keys are exactly the column's descriptors, and there is one legend row per distinct descriptor |
| Mapit.ColorMappingEntries | mapit.py:52-66 | the j-th distinct descriptor is labelled by its formatted form (never overridden), and coloured by its override, or else by palette entry j |
| Mapit.AbyssOverride | mapit.py:52-66 | the descriptor "Abyss" is coloured "#0a0a0a" verbatim |
| Mapit.OverrideKeysAreExact | mapit.py:52-55 | "abyss" and "battlements" in lower case are not override keys |
| Mapit.BattlementsOverride | mapit.py:52-66 | the descriptor "Battlements" is coloured "#4b0082" verbatim |
| Mapit.ColorsAreTable | mapit.py:66 | a table that gives each distinct descriptor, and nothing else, its drawn colour is the colour table |
| Mapit.Drawn | mapit.py:66 | custom_colors.get(d, color_list.pop(0)) for the j-th distinct descriptor: its override when it has one, and otherwise palette entry j of len(unique) |
| Mapit.CreateColorMapping | mapit.py:51-67 | the pop-on-every-descriptor loop builds the colour mapping of the column and leaves the colour list empty |
| Mapit.FirstIndexAt | mapit.py:73-75 | returns no index exactly when no row stands at (x, y); otherwise the first row standing there |
| Mapit.MapitCell | mapit.py:73-78 | the cell of (x, y) stands at (x, y), and it is filled iff some row stands at adjusted (x, y) |
| Mapit.Band | mapit.py:71-78 | the rows y_lo..y_hi of the grid hold width cells each |
| Mapit.MapitCells | mapit.py:71-78 | a grid with positive sides has grid_width*grid_height cells |
| Mapit.RowOfSnoc | mapit.py:72-78 | row y up to x + 1 is row y up to x followed by the cell of (x, y), which is what one inner iteration appends |
| Mapit.BandAddRow | mapit.py:71-78 | appending row y to the rows above it gives the grid down to row y |
| Mapit.GenerateMapHtml | mapit.py:69-80 | the nested loops produce the grid wrapper around the cells of the grid, rows from grid_height - 1 down to 0 and x ascending, each showing the first matching row |
| Mapit.MapitCellsCoverGrid | mapit.py:71-72 | the grid has grid_width*grid_height cells, all inside the grid and at distinct coordinates |
| Mapit.MapitCellAt | mapit.py:71-72 | cell (x, y) is drawn at position (grid_height - 1 - y) * grid_width + x |
| Mapit.MapitCellsSize | mapit.py:71-72 | the grid has grid_width*grid_height cells; cell k stands at (k % grid_width, grid_height - 1 - k / grid_width) |
| Mapit.MapitCellFilledIff | mapit.py:73-78 | a cell is filled iff some row stands at its adjusted coordinate; it then shows the first such row's descriptor in that descriptor's colour |
| Mapit.FrameColoredBy | mapit.py:66-76 | a colour table keyed by the DescriptorID column colours every row, so the lookup of line 76 never fails |
| Mapit.PageWith | mapit.py:206-208 | the grid spans max X_adj + 1 columns and max Y_adj + 1 rows, and the markup wraps that grid's cells |
| Mapit.PageOf | mapit.py:202-208 | the page's colour keys are exactly the tiles' descriptors |
| Mapit.PageDimensions | mapit.py:203-208 | the grid is as wide and as high as the bounding box, both positive, and holds grid_height*grid_width cells between the opening and closing wrapper |
| Mapit.PageWithShape | mapit.py:70-79 | the markup has grid_width*grid_height + 2 entries, opening wrapper first and closing wrapper last |
| Mapit.Render | mapit.py:197-208 | the run fails iff loading fails, falsy non-list "Map" values included, with the same error; otherwise it renders the page of the loaded tiles |
| Mapit.LayOut | mapit.py:206-208 | computing the grid dimensions and running the renderer gives the page of the frame |
| Variants.AdjustedIsShifted | mapit.py:203 | the adjusted frame holds the tiles moved by the lower-left corner of the bounding box |
| Variants.FirstMatchIsLastMatch | mapit.py:73-75 | with unique coordinates, mapit's first row at (x, y) is main's last tile at (x + x_min, y + y_min) |
| Variants.CellsAgree | mapit.py:73-78 | with unique coordinates and one colour table, mapit's cell at (x, y) is main's cell at (x + dx, y + dy) moved back |
| Variants.SameIndex | mapit.py:73-75 | with unique coordinates, mapit's first row and main's last tile at corresponding coordinates are the same tile |
| Variants.SameContent | mapit.py:73-78 | when both pick the same tile, the two cells are both empty or show the same descriptor and colour |
| Variants.AllCellsAgree | mapit.py:73-78 | CellsAgree holds at every coordinate |
| Variants.BoxGridsAgree | mapit.py:69-80 | when the cells agree pointwise, mapit's grid is main's box grid, cell by cell, shifted by the box's lower-left corner |
| Variants.GridCellAgrees | mapit.py:71-78 | cell k of mapit's grid is cell k of main's grid shifted by the box's lower-left corner |
| Variants.GridsAgree | mapit.py:69-80 | for tiles with unique coordinates, mapit's grid has as many cells as main's and cell k is main's cell k moved by (-x_min, -y_min) |
| Variants.AdjustedCellwise | mapit.py:203 | the adjusted frame's cells are main's cells moved by the box's lower-left corner |
| Variants.DimensionsAgree | mapit.py:206-207 | both scripts give the grid the same width and height |
| Variants.ClassificationsAgree | mapit.py:51-67 | both classifications list the same descriptors in the same order; descriptors without overrides get the same label and the same palette colour |
| Variants.DuplicateCoordinatesDiverge | mapit.py:75 | for two tiles at one coordinate, main's one-cell grid shows the second tile and mapit's shows the first |
| Variants.MainShowsLast | main.py:151-159 | for two tiles at one coordinate, main's one-cell grid shows the second tile |
| Variants.PairBox | main.py:261-262 | two tiles at one coordinate have that point as their bounding box |
| Variants.MapitShowsFirst | mapit.py:73-75 | for two tiles at one coordinate, mapit's one-cell grid shows the first tile at (0, 0) |
| Variants.OneCellGrid | main.py:154-168 | the grid of a box that is a single point is the one cell of that point |

## Left out

- Terminal interaction is not modelled: listing save files, the file-choice prompts, custom paths and the repeat loop of `main.py`.
- File I/O is not modelled: JSON decoding and its errors, reading the page template, writing the output file, the output paths. A loaded save is the `MapEntry` value.
- The page template, the legend markup and the embedded highlight/search script (`generate_html`, mapit.py:82 onward) are static text and client-side behaviour, so they are not modelled. The page is the `Page` value handed to them.
- Grid markup is modelled as `Cell`/`MapItem` values, not as HTML strings. Mapit cells carry their adjusted coordinates, which mapit's markup does not print.
- The matplotlib `tab20` colour values and `rgb2hex` are not modelled. The palette is the parameter `Palette(n, i)`, and `PaletteDistinct` states when it gives distinct colours.
- DescriptorFormat.Title: title-casing is modelled for ASCII only. Non-ASCII characters count as uncased and stay unchanged, which Python's `str.title()` does not guarantee.
- MainMapper.LoadTiles: records whose keys differ from one another are excluded by a precondition. pandas would fill the gaps with NaN, and that is not modelled.
- Mapit.LoadFrame: a non-empty `"Map"` value that is not a list is excluded by a precondition. The script's emptiness check catches only falsy values (modelled as NoMapData); what pandas does with any other value depends on the value.
- Mapit.Render: the same precondition as Mapit.LoadFrame on non-empty values that are not lists.
- Mapit.Render: an uncaught `KeyError` on a missing column is modelled as the error `MissingColumn`.
- MainMapper.GenerateMapHtmlOptimized: requires every tile's descriptor to have a colour. In `main.py` the colours always come from the same tiles (`MainMapper.EveryTileColored`), so the `KeyError` at main.py:159 cannot happen there.
- Coordinates are unbounded integers. pandas int64 overflow is not modelled.
- `main.py` reads its overrides from module constants. `MainMapper.CreateColorMapping` takes them as parameters, and `MainMapper.PageOf` and `MainMapper.Render` pass the constants `CustomColors` and `CustomLabels`.
- The data-frame column assignment at mapit.py:203 changes the frame in place. The model gives it as the function `Mapit.AddAdjustedColumns`, which returns the new frame.
