/**
  The tiles read from a save file's "Map" array, the raw records they come
  from, and the coordinate facts both scripts compute over them (the column
  minima and maxima, the set of occupied coordinates).
*/
module MapData {
  import opened Results

  /** One tile of the map: its coordinates and its descriptor identifier. */
  datatype Tile = Tile(x: int, y: int, desc: string)

  /** One element of the "Map" array as parsed: each required key may be absent. */
  datatype Record = Record(x: Option<int>, y: Option<int>, desc: Option<string>)

  /**
    What data.get("Map", []) yields: the key is absent, its value is not a
    JSON array, or it is an array of records.  A value that is not an array
    is empty when Python treats it as false (null, false, 0, "" or {}).
  */
  datatype MapEntry = Missing | NotAList(empty: bool) | Records(items: seq<Record>)

  /**
    Every key is present in all records or in none.  A data frame built from
    records that disagree fills the gaps with NaN, which is not modelled.
  */
  predicate ColumnsUniform(items: seq<Record>) {
    forall i, j :: 0 <= i < |items| && 0 <= j < |items| ==>
      items[i].x.Some? == items[j].x.Some?
      && items[i].y.Some? == items[j].y.Some?
      && items[i].desc.Some? == items[j].desc.Some?
  }

  /** A data frame built from the records has the columns X, Y and DescriptorID. */
  predicate HasRequiredColumns(items: seq<Record>) {
    && (exists i :: 0 <= i < |items| && items[i].x.Some?)
    && (exists i :: 0 <= i < |items| && items[i].y.Some?)
    && (exists i :: 0 <= i < |items| && items[i].desc.Some?)
  }

  predicate Complete(r: Record) {
    r.x.Some? && r.y.Some? && r.desc.Some?
  }

  /** The records, row by row, as tiles; every record carries all three keys. */
  function ToTiles(items: seq<Record>): (tiles: seq<Tile>)
    requires forall i :: 0 <= i < |items| ==> Complete(items[i])
    ensures |tiles| == |items|
    ensures forall i :: 0 <= i < |tiles| ==>
      items[i] == Record(Some(tiles[i].x), Some(tiles[i].y), Some(tiles[i].desc))
  {
    seq(|items|, i requires 0 <= i < |items| && Complete(items[i]) => Tile(items[i].x.value, items[i].y.value, items[i].desc.value))
  }

  /** In a uniform, non-empty array, having the columns means every record is complete. */
  lemma UniformColumnsComplete(items: seq<Record>)
    requires ColumnsUniform(items) && HasRequiredColumns(items)
    ensures forall i :: 0 <= i < |items| ==> Complete(items[i])
  {
    var ix :| 0 <= ix < |items| && items[ix].x.Some?;
    var iy :| 0 <= iy < |items| && items[iy].y.Some?;
    var id :| 0 <= id < |items| && items[id].desc.Some?;
    forall i | 0 <= i < |items| ensures Complete(items[i]) {
      assert items[i].x.Some? == items[ix].x.Some?;
      assert items[i].y.Some? == items[iy].y.Some?;
      assert items[i].desc.Some? == items[id].desc.Some?;
    }
  }

  // ---------------------------------------------------------------------------
  // Columns and their extrema
  // ---------------------------------------------------------------------------

  function Xs(tiles: seq<Tile>): seq<int> {
    seq(|tiles|, i requires 0 <= i < |tiles| => tiles[i].x)
  }

  function Ys(tiles: seq<Tile>): seq<int> {
    seq(|tiles|, i requires 0 <= i < |tiles| => tiles[i].y)
  }

  /** The DescriptorID column. */
  function Descs(tiles: seq<Tile>): seq<string> {
    seq(|tiles|, i requires 0 <= i < |tiles| => tiles[i].desc)
  }

  /** Series.min(): the least value of a non-empty column, attained by some row. */
  function MinOf(s: seq<int>): (m: int)
    requires |s| > 0
    ensures forall i :: 0 <= i < |s| ==> m <= s[i]
    ensures exists i :: 0 <= i < |s| && s[i] == m
  {
    if |s| == 1 then s[0]
    else
      var rest := MinOf(s[1..]);
      assert forall i :: 1 <= i < |s| ==> s[i] == s[1..][i - 1];
      if s[0] <= rest then s[0] else rest
  }

  /** Series.max(): the greatest value of a non-empty column, attained by some row. */
  function MaxOf(s: seq<int>): (m: int)
    requires |s| > 0
    ensures forall i :: 0 <= i < |s| ==> s[i] <= m
    ensures exists i :: 0 <= i < |s| && s[i] == m
  {
    if |s| == 1 then s[0]
    else
      var rest := MaxOf(s[1..]);
      assert forall i :: 1 <= i < |s| ==> s[i] == s[1..][i - 1];
      if s[0] >= rest then s[0] else rest
  }

  /** The bounding rectangle [xMin..xMax] x [yMin..yMax] of the tiles' coordinates. */
  datatype Box = Box(xMin: int, xMax: int, yMin: int, yMax: int)

  /** The box of the column extrema; it is never empty, since some tile lies in it. */
  function BoundingBox(tiles: seq<Tile>): (b: Box)
    requires |tiles| > 0
    ensures b.xMin <= b.xMax && b.yMin <= b.yMax
  {
    assert Xs(tiles)[0] == tiles[0].x && Ys(tiles)[0] == tiles[0].y;
    Box(MinOf(Xs(tiles)), MaxOf(Xs(tiles)), MinOf(Ys(tiles)), MaxOf(Ys(tiles)))
  }

  predicate InBox(b: Box, x: int, y: int) {
    b.xMin <= x <= b.xMax && b.yMin <= y <= b.yMax
  }

  /** Every tile lies inside the bounding box, and each of its four sides is touched by a tile. */
  lemma BoundingBoxIsTight(tiles: seq<Tile>)
    requires |tiles| > 0
    ensures forall i :: 0 <= i < |tiles| ==> InBox(BoundingBox(tiles), tiles[i].x, tiles[i].y)
    ensures var b := BoundingBox(tiles);
      && (exists i :: 0 <= i < |tiles| && tiles[i].x == b.xMin)
      && (exists i :: 0 <= i < |tiles| && tiles[i].x == b.xMax)
      && (exists i :: 0 <= i < |tiles| && tiles[i].y == b.yMin)
      && (exists i :: 0 <= i < |tiles| && tiles[i].y == b.yMax)
  {
    var b := BoundingBox(tiles);
    forall i | 0 <= i < |tiles| ensures InBox(b, tiles[i].x, tiles[i].y) {
      assert Xs(tiles)[i] == tiles[i].x && Ys(tiles)[i] == tiles[i].y;
    }
    var i0 :| 0 <= i0 < |tiles| && Xs(tiles)[i0] == b.xMin;
    var i1 :| 0 <= i1 < |tiles| && Xs(tiles)[i1] == b.xMax;
    var i2 :| 0 <= i2 < |tiles| && Ys(tiles)[i2] == b.yMin;
    var i3 :| 0 <= i3 < |tiles| && Ys(tiles)[i3] == b.yMax;
    assert tiles[i0].x == b.xMin && tiles[i1].x == b.xMax;
    assert tiles[i2].y == b.yMin && tiles[i3].y == b.yMax;
  }

  // ---------------------------------------------------------------------------
  // Occupied coordinates
  // ---------------------------------------------------------------------------

  predicate At(t: Tile, x: int, y: int) {
    t.x == x && t.y == y
  }

  /** The distinct (X, Y) coordinates that carry a tile. */
  function CoordSet(tiles: seq<Tile>): set<(int, int)> {
    set i | 0 <= i < |tiles| :: (tiles[i].x, tiles[i].y)
  }

  /** No two tiles share a coordinate. */
  predicate UniqueCoords(tiles: seq<Tile>) {
    forall i, j :: 0 <= i < j < |tiles| ==> !At(tiles[j], tiles[i].x, tiles[i].y)
  }

  /** With unique coordinates there are as many occupied coordinates as tiles. */
  lemma {:induction false} UniqueCoordsCount(tiles: seq<Tile>)
    requires UniqueCoords(tiles)
    ensures |CoordSet(tiles)| == |tiles|
  {
    if tiles != [] {
      var n := |tiles| - 1;
      var init := tiles[..n];
      assert UniqueCoords(init);
      UniqueCoordsCount(init);
      var p := (tiles[n].x, tiles[n].y);
      assert CoordSet(tiles) == CoordSet(init) + {p} by {
        forall q | q in CoordSet(tiles) ensures q in CoordSet(init) + {p} {
          var i :| 0 <= i < |tiles| && q == (tiles[i].x, tiles[i].y);
          if i < n {
            assert init[i] == tiles[i];
          }
        }
        forall q | q in CoordSet(init) ensures q in CoordSet(tiles) {
          var i :| 0 <= i < n && q == (init[i].x, init[i].y);
          assert init[i] == tiles[i];
        }
      }
      forall i | 0 <= i < n ensures (init[i].x, init[i].y) != p {
        assert init[i] == tiles[i];
      }
    }
  }
}
