/**
  The descriptor classifier both scripts share in substance: the distinct
  descriptors in order of first appearance (pandas' Series.unique()), and the
  colour table that gives each one an override colour when the table has one
  and otherwise the palette entry at its position.
*/
module Classifier {

  /**
    The colormap: Palette(n, i) is the hex colour of entry i of the 20-hue
    categorical colormap resampled to n entries.  Its values are not modelled.
  */
  type Palette = (nat, nat) -> string

  /** The palette resampled to n entries gives n different colours. */
  predicate PaletteDistinct(palette: Palette, n: nat) {
    forall i, j :: 0 <= i < j < n ==> palette(n, i) != palette(n, j)
  }

  /** One row of the legend table: a DescriptorID and its FormattedDescriptorID label. */
  datatype LegendRow = LegendRow(desc: string, formatted: string)

  /** What create_color_mapping returns: the colour per descriptor and the legend rows. */
  datatype Classification = Classification(colors: map<string, string>, legend: seq<LegendRow>)

  predicate NoDuplicates(u: seq<string>) {
    forall i, j :: 0 <= i < j < |u| ==> u[i] != u[j]
  }

  /** The position at which d first appears in ds. */
  function FirstIndex(ds: seq<string>, d: string): (k: nat)
    requires d in ds
    ensures k < |ds| && ds[k] == d && d !in ds[..k]
  {
    if ds[0] == d then 0
    else
      var k := 1 + FirstIndex(ds[1..], d);
      assert ds[..k] == [ds[0]] + ds[1..][..k - 1];
      k
  }

  /** Series.unique(): the distinct values, in the order of their first appearance. */
  function Unique(ds: seq<string>): (u: seq<string>)
    ensures NoDuplicates(u)
    ensures forall d :: d in u <==> d in ds
    ensures forall i, j :: 0 <= i < j < |u| ==> FirstIndex(ds, u[i]) < FirstIndex(ds, u[j])
  {
    if ds == [] then []
    else
      var n := |ds| - 1;
      var init := ds[..n];
      var u' := Unique(init);
      assert ds == init + [ds[n]];
      FirstIndexOfExtension(init, ds[n]);
      if ds[n] in u' then u' else u' + [ds[n]]
  }

  /** Appending an element does not move the first occurrence of anything already present. */
  lemma FirstIndexOfExtension(ds: seq<string>, last: string)
    ensures forall d :: d in ds ==> FirstIndex(ds + [last], d) == FirstIndex(ds, d)
    ensures last !in ds ==> FirstIndex(ds + [last], last) == |ds|
  {
    forall d | d in ds ensures FirstIndex(ds + [last], d) == FirstIndex(ds, d) {
      FirstIndexOfExtensionAt(ds, last, d);
    }
    if last !in ds {
      FirstIndexOfNew(ds, last);
    }
  }

  lemma {:induction false} FirstIndexOfExtensionAt(ds: seq<string>, last: string, d: string)
    requires d in ds
    ensures FirstIndex(ds + [last], d) == FirstIndex(ds, d)
  {
    if ds[0] != d {
      assert (ds + [last])[1..] == ds[1..] + [last];
      FirstIndexOfExtensionAt(ds[1..], last, d);
    }
  }

  lemma {:induction false} FirstIndexOfNew(ds: seq<string>, last: string)
    requires last !in ds
    ensures FirstIndex(ds + [last], last) == |ds|
  {
    if ds != [] {
      assert (ds + [last])[1..] == ds[1..] + [last];
      FirstIndexOfNew(ds[1..], last);
    }
  }

  /** There are as many distinct values as elements in the set of the column's values. */
  lemma UniqueCountsDistinctValues(ds: seq<string>)
    ensures |Unique(ds)| == |set d | d in ds|
  {
    var u := Unique(ds);
    DistinctCardinality(u);
    assert (set d | d in u) == (set d | d in ds);
  }

  lemma {:induction false} DistinctCardinality(u: seq<string>)
    requires NoDuplicates(u)
    ensures |set d | d in u| == |u|
  {
    if u != [] {
      var n := |u| - 1;
      DistinctCardinality(u[..n]);
      assert (set d | d in u) == (set d | d in u[..n]) + {u[n]};
      assert u[n] !in u[..n];
    }
  }

  /**
    The entry index i % N handed to a colormap resampled to N entries: for
    the positions of the distinct descriptors (i < N) it is i itself, so the
    palette never wraps around.
  */
  function ColormapIndex(i: nat, n: nat): (r: nat)
    requires i < n
    ensures r == i
  {
    i % n
  }

  /**
    The colour table built over the distinct descriptors u: a descriptor in the
    override table gets its override colour verbatim, any other descriptor gets
    the palette entry at its position in u, the palette being resampled to |u|
    entries (so the position taken modulo |u| is the position itself).
  */
  function ColorTable(u: seq<string>, overrides: map<string, string>, palette: Palette): (m: map<string, string>)
    requires NoDuplicates(u)
    ensures forall d :: d in m <==> d in u
    ensures forall j :: 0 <= j < |u| ==>
      u[j] in m && m[u[j]] == if u[j] in overrides then overrides[u[j]] else palette(|u|, j)
  {
    map j | 0 <= j < |u| :: u[j] := if u[j] in overrides then overrides[u[j]] else palette(|u|, ColormapIndex(j, |u|))
  }

  /**
    With a palette that gives distinct colours, two different descriptors that
    both fall back to the palette get different colours.
  */
  lemma PaletteColoursDiffer(u: seq<string>, overrides: map<string, string>, palette: Palette, i: nat, j: nat)
    requires NoDuplicates(u) && PaletteDistinct(palette, |u|)
    requires i < |u| && j < |u| && i != j
    requires u[i] !in overrides && u[j] !in overrides
    ensures ColorTable(u, overrides, palette)[u[i]] != ColorTable(u, overrides, palette)[u[j]]
  {
    if i > j {
      PaletteColoursDiffer(u, overrides, palette, j, i);
    }
  }
}
