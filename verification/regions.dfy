/** Rectangles of the image and the vertical tilings the gutter finder produces
    (src/splitter.rs). A tiling is described equally well by its list of cut rows. */
module Regions {

  /** A rectangle in pixel coordinates, fields in the order of the source's `Region`. */
  datatype Region = Region(width: nat, height: nat, x: nat, y: nat)

  /** The first row below the region. */
  function Bottom(r: Region): nat
  {
    r.y + r.height
  }

  predicate ContainsRow(r: Region, row: nat)
  {
    r.y <= row < Bottom(r)
  }

  /** `rs` cuts an `imgx` by `imgy` image into full-width horizontal bands, top to
      bottom: the first starts at row 0, each starts where the previous one ends,
      and the last ends at `imgy`. */
  predicate Tiles(rs: seq<Region>, imgx: nat, imgy: nat)
  {
    && |rs| > 0
    && (forall i :: 0 <= i < |rs| ==> rs[i].x == 0 && rs[i].width == imgx)
    && rs[0].y == 0
    && (forall i :: 0 < i < |rs| ==> rs[i].y == Bottom(rs[i - 1]))
    && Bottom(rs[|rs| - 1]) == imgy
  }

  /** Cut rows in non-decreasing order. */
  predicate Ascending(cuts: seq<nat>)
  {
    forall i, j :: 0 <= i < j < |cuts| ==> cuts[i] <= cuts[j]
  }

  /** The top row of the `i`-th band between cuts: row 0 for the first band. */
  function Top(cuts: seq<nat>, i: nat): nat
    requires i <= |cuts|
  {
    if i == 0 then 0 else cuts[i - 1]
  }

  /** The last cut, or row 0 when there is none. */
  function LastCut(cuts: seq<nat>): nat
  {
    Top(cuts, |cuts|)
  }

  /** The bands closed by the cuts so far: band `i` runs from the previous cut to cut `i`. */
  function ClosedRegions(cuts: seq<nat>, imgx: nat): (rs: seq<Region>)
    requires Ascending(cuts)
    ensures |rs| == |cuts|
  {
    seq(|cuts|, i requires 0 <= i < |cuts| => Region(imgx, cuts[i] - Top(cuts, i), 0, Top(cuts, i)))
  }

  /** Closing one more band appends exactly one region. */
  lemma ClosedRegionsSnoc(cuts: seq<nat>, c: nat, imgx: nat)
    requires Ascending(cuts) && LastCut(cuts) <= c
    ensures Ascending(cuts + [c])
    ensures ClosedRegions(cuts + [c], imgx)
         == ClosedRegions(cuts, imgx) + [Region(imgx, c - LastCut(cuts), 0, LastCut(cuts))]
  {
    var cs := cuts + [c];
    forall i | 0 <= i < |cuts|
      ensures ClosedRegions(cs, imgx)[i] == ClosedRegions(cuts, imgx)[i]
    {
      assert cs[i] == cuts[i];
      assert Top(cs, i) == Top(cuts, i);
    }
  }

  /** The bands between the cuts followed by the band from the last cut to the bottom. */
  function RegionsFromCuts(cuts: seq<nat>, imgx: nat, imgy: nat): (rs: seq<Region>)
    requires Ascending(cuts) && LastCut(cuts) <= imgy
    ensures |rs| == |cuts| + 1
  {
    ClosedRegions(cuts, imgx) + [Region(imgx, imgy - LastCut(cuts), 0, LastCut(cuts))]
  }

  /** The cut rows of a band sequence: where every band but the first starts. */
  function CutsOf(rs: seq<Region>): (cuts: seq<nat>)
    requires |rs| > 0
    ensures |cuts| == |rs| - 1
  {
    seq(|rs| - 1, i requires 0 <= i < |rs| - 1 => rs[i + 1].y)
  }

  /** Any ascending list of cuts inside the image gives a tiling, and the tiling
      gives back the same cuts. */
  lemma RegionsFromCutsTile(cuts: seq<nat>, imgx: nat, imgy: nat)
    requires Ascending(cuts) && LastCut(cuts) <= imgy
    ensures Tiles(RegionsFromCuts(cuts, imgx, imgy), imgx, imgy)
    ensures CutsOf(RegionsFromCuts(cuts, imgx, imgy)) == cuts
  {
    var rs := RegionsFromCuts(cuts, imgx, imgy);
    forall i | 0 < i < |rs|
      ensures rs[i].y == Bottom(rs[i - 1])
    {
      assert rs[i].y == cuts[i - 1];
    }
  }

  /** Each cut lies more than `minHeight` below row 0 and below every earlier cut. */
  predicate ClearsBy(cuts: seq<nat>, minHeight: nat)
  {
    && (forall i :: 0 <= i < |cuts| ==> cuts[i] > minHeight)
    && (forall i, j :: 0 <= i < j < |cuts| ==> cuts[i] + minHeight < cuts[j])
  }

  /** Cuts that clear each other by more than `minHeight` and end above the
      bottom give bands that are all taller than `minHeight` except the last one,
      which runs from the last cut to the bottom and is never empty in an image
      with rows. */
  lemma RegionsFromCutsHeights(cuts: seq<nat>, imgx: nat, imgy: nat, minHeight: nat)
    requires ClearsBy(cuts, minHeight)
    requires forall i :: 0 <= i < |cuts| ==> cuts[i] < imgy
    ensures Ascending(cuts) && LastCut(cuts) <= imgy
    ensures forall i :: 0 <= i < |cuts| ==> RegionsFromCuts(cuts, imgx, imgy)[i].height > minHeight
    ensures RegionsFromCuts(cuts, imgx, imgy)[|cuts|].height == imgy - LastCut(cuts)
    ensures imgy > 0 ==> forall i :: 0 <= i <= |cuts| ==> RegionsFromCuts(cuts, imgx, imgy)[i].height > 0
  {
    var rs := RegionsFromCuts(cuts, imgx, imgy);
    forall i | 0 <= i < |cuts|
      ensures rs[i].height > minHeight
    {
      assert rs[i].height == cuts[i] - Top(cuts, i);
    }
  }

  /** Every tiling is the one its own cuts describe. */
  lemma TilingFromItsCuts(rs: seq<Region>, imgx: nat, imgy: nat)
    requires Tiles(rs, imgx, imgy)
    ensures Ascending(CutsOf(rs)) && LastCut(CutsOf(rs)) <= imgy
    ensures RegionsFromCuts(CutsOf(rs), imgx, imgy) == rs
  {
    var cuts := CutsOf(rs);
    forall i, j | 0 <= i < j < |cuts|
      ensures cuts[i] <= cuts[j]
    {
      TilesOrdered(rs, imgx, imgy, i + 1, j + 1);
    }
    if |cuts| > 0 {
      TilesWithinImage(rs, imgx, imgy, |cuts|);
    }
    var back := RegionsFromCuts(cuts, imgx, imgy);
    forall i | 0 <= i < |rs|
      ensures back[i] == rs[i]
    {
      if i < |cuts| {
        assert cuts[i] == Bottom(rs[i]);
      }
    }
  }

  /** In a tiling, a band never starts above the bottom of an earlier band. */
  lemma {:induction false} TilesOrdered(rs: seq<Region>, imgx: nat, imgy: nat, i: nat, j: nat)
    requires Tiles(rs, imgx, imgy) && i < j < |rs|
    ensures Bottom(rs[i]) <= rs[j].y
    decreases j - i
  {
    if j > i + 1 {
      TilesOrdered(rs, imgx, imgy, i, j - 1);
    }
  }

  /** Every band of a tiling lies inside the image. */
  lemma TilesWithinImage(rs: seq<Region>, imgx: nat, imgy: nat, i: nat)
    requires Tiles(rs, imgx, imgy) && i < |rs|
    ensures rs[i].x + rs[i].width <= imgx && Bottom(rs[i]) <= imgy
  {
    var last := |rs| - 1;
    if i < last {
      TilesOrdered(rs, imgx, imgy, i, last);
    }
  }

  /** A row at or below the top of band `k` lies in band `k` or a later one. */
  lemma {:induction false} CoveredFrom(rs: seq<Region>, imgx: nat, imgy: nat, row: nat, k: nat)
    requires Tiles(rs, imgx, imgy) && k < |rs| && rs[k].y <= row < imgy
    ensures exists i :: k <= i < |rs| && ContainsRow(rs[i], row)
    decreases |rs| - k
  {
    if !ContainsRow(rs[k], row) {
      assert k + 1 < |rs|;
      CoveredFrom(rs, imgx, imgy, row, k + 1);
    }
  }

  /** A tiling covers each row of the image exactly once: no gaps, no overlaps. */
  lemma TilesCoverEachRowOnce(rs: seq<Region>, imgx: nat, imgy: nat, row: nat)
    requires Tiles(rs, imgx, imgy) && row < imgy
    ensures exists i :: 0 <= i < |rs| && ContainsRow(rs[i], row)
    ensures forall i, j :: 0 <= i < |rs| && 0 <= j < |rs| && ContainsRow(rs[i], row) && ContainsRow(rs[j], row) ==> i == j
  {
    CoveredFrom(rs, imgx, imgy, row, 0);
    forall i, j | 0 <= i < j < |rs| && ContainsRow(rs[i], row)
      ensures !ContainsRow(rs[j], row)
    {
      TilesOrdered(rs, imgx, imgy, i, j);
    }
  }
}
