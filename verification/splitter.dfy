/** The gutter finder `Splitter::get_split_regions` and the save loop of
    `Splitter::split_color_buffer` (src/splitter.rs).

    The scan is given twice: `GetSplitRegions` is the row loop as the source
    writes it, and `SplitRegions` is a reference definition built from three
    plain ideas, each stated on its own:
    - `RunBefore`: how many empty rows end just above a row;
    - `CandidatesFrom`: the cut each qualifying non-empty row proposes;
    - `Greedy`: which proposals become cuts, given the minimum slice height. */
module Splitter {
  import opened Pixels
  import opened Regions
  import opened Paths

  /** The splitter's options. Only `blackLines` affects the regions;
      `removeOriginal` is used by the file-level driver alone. */
  datatype Splitter = Splitter(removeOriginal: bool, blackLines: bool)

  /** The grayscale buffer, `pixels[y][x]`, row-major. */
  datatype GrayImage = GrayImage(width: nat, height: nat, pixels: seq<seq<Byte>>)
  {
    predicate Valid()
    {
      |pixels| == height && forall y :: 0 <= y < |pixels| ==> |pixels[y]| == width
    }
  }

  /** A run of empty rows must be at least this long to hold a cut. */
  const MinWhiteRows: nat := 10

  /** The scan starts a fifth of the way down the image ... */
  function StartY(imgy: nat): nat
  {
    imgy / 5
  }

  /** ... and stops a fifth of the way up from the bottom. */
  function EndY(imgy: nat): nat
  {
    imgy - StartY(imgy)
  }

  /** A slice closed by a cut must be taller than this. */
  function MinHeight(imgy: nat): nat
  {
    imgy / 5
  }

  /** One sample in twenty may be bad in an empty row. */
  function BadPixelLimit(imgx: nat): nat
  {
    imgx / 20
  }

  /** Row `y` of the image is empty for target `t`. */
  predicate RowEmpty(img: GrayImage, t: Target, y: nat)
    requires img.Valid() && y < img.height
  {
    RowIsEmpty(img.pixels[y], t, BadPixelLimit(img.width))
  }

  /** The classification of every row of the image. The cut logic below sees the
      image only through these flags, one per row. */
  function EmptyRows(img: GrayImage, t: Target): (empty: seq<bool>)
    requires img.Valid()
    ensures |empty| == img.height
  {
    EmptyRowsAbove(img, t, img.height)
  }

  /** The flags of the rows above row `n`. */
  function EmptyRowsAbove(img: GrayImage, t: Target, n: nat): (empty: seq<bool>)
    requires img.Valid() && n <= img.height
    ensures |empty| == n
    decreases n
  {
    if n == 0 then [] else EmptyRowsAbove(img, t, n - 1) + [RowEmpty(img, t, n - 1)]
  }

  /** The flag of row `y` is the classification of row `y`. */
  lemma EmptyRowsAt(img: GrayImage, t: Target, y: nat)
    requires img.Valid() && y < img.height
    ensures EmptyRows(img, t)[y] == RowIsEmpty(img.pixels[y], t, BadPixelLimit(img.width))
  {
    EmptyRowsAboveAt(img, t, img.height, y);
  }

  lemma {:induction false} EmptyRowsAboveAt(img: GrayImage, t: Target, n: nat, y: nat)
    requires img.Valid() && y < n <= img.height
    ensures EmptyRowsAbove(img, t, n)[y] == RowEmpty(img, t, y)
    decreases n
  {
    if y < n - 1 {
      EmptyRowsAboveAt(img, t, n - 1, y);
    }
  }

  /** The pixel loop over row `y` of the image computes that row's flag. */
  method ClassifyImageRow(img: GrayImage, t: Target, badPixelLimit: nat, y: nat) returns (rowIsEmpty: bool)
    requires img.Valid() && y < img.height && badPixelLimit == BadPixelLimit(img.width)
    ensures rowIsEmpty == EmptyRows(img, t)[y]
  {
    rowIsEmpty := ClassifyRow(img.pixels[y], t, badPixelLimit);
    EmptyRowsAt(img, t, y);
  }

  /** The number of consecutive empty rows that end just above row `y`,
      counting no further up than the start of the scan. */
  function RunBefore(empty: seq<bool>, y: nat): (run: nat)
    requires y <= |empty|
    ensures run == 0 || StartY(|empty|) + run <= y
    decreases y
  {
    if y <= StartY(|empty|) then 0
    else if empty[y - 1] then RunBefore(empty, y - 1) + 1
    else 0
  }

  /** `RunBefore(y)` is a maximal run: the rows it counts are empty, and the row
      above them is not empty unless it lies above the scan. */
  lemma {:induction false} RunBeforeIsMaximalRun(empty: seq<bool>, y: nat)
    requires StartY(|empty|) <= y <= |empty|
    ensures forall k :: y - RunBefore(empty, y) <= k < y ==> empty[k]
    ensures y - RunBefore(empty, y) > StartY(|empty|) ==> !empty[y - RunBefore(empty, y) - 1]
    decreases y
  {
    if y > StartY(|empty|) && empty[y - 1] {
      RunBeforeIsMaximalRun(empty, y - 1);
    }
  }

  /** Row `y` closes a run of empty rows long enough to hold a cut. */
  predicate IsCandidate(empty: seq<bool>, y: nat)
  {
    && StartY(|empty|) <= y < EndY(|empty|)
    && !empty[y]
    && RunBefore(empty, y) >= MinWhiteRows
  }

  /** The cut a candidate row proposes: the middle of the run above it. */
  function CandidateCut(empty: seq<bool>, y: nat): nat
    requires y <= |empty|
  {
    y - RunBefore(empty, y) / 2
  }

  /** The proposed cut of a candidate lies at least five rows below the start of
      the scan and at least five rows above the candidate row. */
  lemma CandidateCutBounds(empty: seq<bool>, y: nat)
    requires IsCandidate(empty, y)
    ensures StartY(|empty|) + MinWhiteRows / 2 <= CandidateCut(empty, y) <= y - MinWhiteRows / 2
  {
  }

  /** The proposed cuts of the candidate rows from `y` to the end of the scan, top to bottom. */
  function CandidatesFrom(empty: seq<bool>, y: nat): seq<nat>
    requires y <= EndY(|empty|)
    decreases EndY(|empty|) - y
  {
    if y == EndY(|empty|) then []
    else if IsCandidate(empty, y) then [CandidateCut(empty, y)] + CandidatesFrom(empty, y + 1)
    else CandidatesFrom(empty, y + 1)
  }

  /** Every proposal lies at least five rows below the start of the scan and above its end. */
  lemma {:induction false} CandidatesFromBounds(empty: seq<bool>, y: nat)
    requires y <= EndY(|empty|)
    ensures forall i :: 0 <= i < |CandidatesFrom(empty, y)| ==>
      StartY(|empty|) + MinWhiteRows / 2 <= CandidatesFrom(empty, y)[i] < EndY(|empty|)
    decreases EndY(|empty|) - y
  {
    if y < EndY(|empty|) {
      CandidatesFromBounds(empty, y + 1);
      if IsCandidate(empty, y) {
        CandidateCutBounds(empty, y);
      }
    }
  }

  /** The proposals from `y` on are exactly the cuts of the candidate rows at or below `y`. */
  lemma CandidatesFromMembers(empty: seq<bool>, y: nat, c: nat)
    requires y <= EndY(|empty|)
    ensures c in CandidatesFrom(empty, y) <==>
      exists y' :: y <= y' && IsCandidate(empty, y') && c == CandidateCut(empty, y')
  {
    if c in CandidatesFrom(empty, y) {
      CandidateOrigin(empty, y, c);
    }
    if exists y' :: y <= y' && IsCandidate(empty, y') && c == CandidateCut(empty, y') {
      var y' :| y <= y' && IsCandidate(empty, y') && c == CandidateCut(empty, y');
      CandidateProposed(empty, y, y');
    }
  }

  /** Every proposal from `y` on comes from a candidate row at or below `y`. */
  lemma {:induction false} CandidateOrigin(empty: seq<bool>, y: nat, c: nat)
    requires y <= EndY(|empty|) && c in CandidatesFrom(empty, y)
    ensures exists y' :: y <= y' && IsCandidate(empty, y') && c == CandidateCut(empty, y')
    decreases EndY(|empty|) - y
  {
    if IsCandidate(empty, y) && c == CandidateCut(empty, y) {
      assert y <= y && IsCandidate(empty, y) && c == CandidateCut(empty, y);
    } else {
      assert c in CandidatesFrom(empty, y + 1);
      CandidateOrigin(empty, y + 1, c);
      var y' :| y + 1 <= y' && IsCandidate(empty, y') && c == CandidateCut(empty, y');
      assert y <= y';
    }
  }

  /** Every candidate row at or below `y` proposes its cut among the proposals from `y` on. */
  lemma {:induction false} CandidateProposed(empty: seq<bool>, y: nat, y': nat)
    requires y <= y' && IsCandidate(empty, y')
    ensures CandidateCut(empty, y') in CandidatesFrom(empty, y)
    decreases y' - y
  {
    if y < y' {
      CandidateProposed(empty, y + 1, y');
    }
  }

  /** The cut filter of the scan: a proposal becomes a cut when the slice above it,
      measured from the previous cut `current`, is taller than `minHeight`;
      otherwise it is dropped and the previous cut stays. */
  function Greedy(cands: seq<nat>, current: nat, minHeight: nat): seq<nat>
    decreases |cands|
  {
    if |cands| == 0 then []
    else if cands[0] > current + minHeight then [cands[0]] + Greedy(cands[1..], cands[0], minHeight)
    else Greedy(cands[1..], current, minHeight)
  }

  /** The kept cuts are proposals, each more than `minHeight` below `current` and
      below every earlier kept cut. */
  lemma {:induction false} GreedyClears(cands: seq<nat>, current: nat, minHeight: nat)
    ensures forall i :: 0 <= i < |Greedy(cands, current, minHeight)| ==>
      Greedy(cands, current, minHeight)[i] in cands
    ensures forall i :: 0 <= i < |Greedy(cands, current, minHeight)| ==>
      Greedy(cands, current, minHeight)[i] > current + minHeight
    ensures forall i, j :: 0 <= i < j < |Greedy(cands, current, minHeight)| ==>
      Greedy(cands, current, minHeight)[i] + minHeight < Greedy(cands, current, minHeight)[j]
    decreases |cands|
  {
    if |cands| > 0 {
      var c := cands[0];
      if c > current + minHeight {
        GreedyClears(cands[1..], c, minHeight);
        var rest := Greedy(cands[1..], c, minHeight);
        assert Greedy(cands, current, minHeight) == [c] + rest;
      } else {
        GreedyClears(cands[1..], current, minHeight);
      }
    }
  }

  /** The last kept cut, or `current` when none was kept. */
  function LastKept(kept: seq<nat>, current: nat): nat
  {
    if |kept| == 0 then current else kept[|kept| - 1]
  }

  /** The filter runs left to right: after the first `k` proposals it carries on
      from the last cut it kept among them. */
  lemma {:induction false} GreedySplit(cands: seq<nat>, current: nat, minHeight: nat, k: nat)
    requires k <= |cands|
    ensures Greedy(cands, current, minHeight) ==
      Greedy(cands[..k], current, minHeight)
      + Greedy(cands[k..], LastKept(Greedy(cands[..k], current, minHeight), current), minHeight)
    decreases k
  {
    if k == 0 {
      assert cands[k..] == cands;
    } else {
      var c := cands[0];
      var next := if c > current + minHeight then c else current;
      GreedySplit(cands[1..], next, minHeight, k - 1);
      assert cands[..k][1..] == cands[1..][..k - 1];
      assert cands[1..][k - 1..] == cands[k..];
      var front := Greedy(cands[1..][..k - 1], next, minHeight);
      if c > current + minHeight {
        assert Greedy(cands[..k], current, minHeight) == [c] + front;
        assert LastKept([c] + front, current) == LastKept(front, c);
      } else {
        assert Greedy(cands[..k], current, minHeight) == front;
      }
    }
  }

  /** A proposal more than `minHeight` below the last cut kept before it is
      kept, and the filter carries on from it. */
  lemma GreedyKeeps(cands: seq<nat>, current: nat, minHeight: nat, k: nat)
    requires k < |cands|
    requires cands[k] > LastKept(Greedy(cands[..k], current, minHeight), current) + minHeight
    ensures Greedy(cands, current, minHeight) ==
      Greedy(cands[..k], current, minHeight) + [cands[k]] + Greedy(cands[k + 1..], cands[k], minHeight)
    ensures cands[k] in Greedy(cands, current, minHeight)
  {
    GreedySplit(cands, current, minHeight, k);
    assert cands[k..][1..] == cands[k + 1..];
  }

  /** A proposal at most `minHeight` below the last cut kept before it is
      dropped, and the filter carries on from that last cut. */
  lemma GreedyDrops(cands: seq<nat>, current: nat, minHeight: nat, k: nat)
    requires k < |cands|
    requires cands[k] <= LastKept(Greedy(cands[..k], current, minHeight), current) + minHeight
    ensures Greedy(cands, current, minHeight) ==
      Greedy(cands[..k], current, minHeight)
      + Greedy(cands[k + 1..], LastKept(Greedy(cands[..k], current, minHeight), current), minHeight)
  {
    GreedySplit(cands, current, minHeight, k);
    assert cands[k..][1..] == cands[k + 1..];
  }

  /** The cuts the scan makes, given the classification of every row: each clears
      the previous one, or the top of the image, by more than `MinHeight`, and
      all lie above the end of the scan. */
  function ScanCuts(empty: seq<bool>): (cuts: seq<nat>)
    ensures ClearsBy(cuts, MinHeight(|empty|))
    ensures forall i :: 0 <= i < |cuts| ==> StartY(|empty|) + MinWhiteRows / 2 <= cuts[i] < EndY(|empty|)
    ensures Ascending(cuts) && LastCut(cuts) <= |empty|
  {
    var cands := CandidatesFrom(empty, StartY(|empty|));
    var cuts := Greedy(cands, 0, MinHeight(|empty|));
    CandidatesFromBounds(empty, StartY(|empty|));
    GreedyClears(cands, 0, MinHeight(|empty|));
    forall i | 0 <= i < |cuts|
      ensures StartY(|empty|) + MinWhiteRows / 2 <= cuts[i] < EndY(|empty|)
    {
      var k :| 0 <= k < |cands| && cands[k] == cuts[i];
    }
    cuts
  }

  /** The regions of an image `imgx` wide whose rows are classified by `empty`. */
  function ScanRegions(empty: seq<bool>, imgx: nat): seq<Region>
  {
    RegionsFromCuts(ScanCuts(empty), imgx, |empty|)
  }

  /** The regions `get_split_regions` returns, as a reference definition. */
  function SplitRegions(s: Splitter, img: GrayImage): seq<Region>
    requires img.Valid()
  {
    ScanRegions(EmptyRows(img, TargetFor(s.blackLines)), img.width)
  }

  /** The regions tile the image; every region but the last is taller than
      `MinHeight`; and when the image has rows, no region is empty. */
  lemma ScanRegionsTile(empty: seq<bool>, imgx: nat)
    ensures Tiles(ScanRegions(empty, imgx), imgx, |empty|)
    ensures forall i :: 0 <= i < |ScanRegions(empty, imgx)| - 1 ==> ScanRegions(empty, imgx)[i].height > MinHeight(|empty|)
    ensures |empty| > 0 ==> forall i :: 0 <= i < |ScanRegions(empty, imgx)| ==> ScanRegions(empty, imgx)[i].height > 0
  {
    var cuts := ScanCuts(empty);
    RegionsFromCutsTile(cuts, imgx, |empty|);
    RegionsFromCutsHeights(cuts, imgx, |empty|, MinHeight(|empty|));
  }

  /** When no cut is made the result is the whole image as one region, and only then. */
  lemma NoCutWholeImage(empty: seq<bool>, imgx: nat)
    ensures ScanCuts(empty) == [] <==> ScanRegions(empty, imgx) == [Region(imgx, |empty|, 0, 0)]
    ensures ScanCuts(empty) == [] <==> |ScanRegions(empty, imgx)| == 1
  {
  }

  /** A run of `run` empty rows ends just above the non-empty row `y`, inside the
      scan, and is maximal: the row above it is non-empty or lies above the scan. */
  predicate IsCutSite(empty: seq<bool>, y: nat, run: nat)
  {
    && StartY(|empty|) + run <= y < EndY(|empty|)
    && !empty[y]
    && run >= MinWhiteRows
    && (forall k :: y - run <= k < y ==> empty[k])
    && (y - run == StartY(|empty|) || !empty[y - run - 1])
  }

  /** Every cut sits at the middle of a maximal run of at least `MinWhiteRows`
      empty rows that a non-empty row of the scan closes. */
  lemma CutOrigin(empty: seq<bool>, c: nat)
    requires c in ScanCuts(empty)
    ensures exists y: nat, run: nat :: IsCutSite(empty, y, run) && c == y - run / 2
  {
    var cands := CandidatesFrom(empty, StartY(|empty|));
    GreedyClears(cands, 0, MinHeight(|empty|));
    assert c in cands;
    CandidatesFromMembers(empty, StartY(|empty|), c);
    var y :| StartY(|empty|) <= y && IsCandidate(empty, y) && c == CandidateCut(empty, y);
    var run := RunBefore(empty, y);
    RunBeforeIsMaximalRun(empty, y);
    assert IsCutSite(empty, y, run);
  }

  /** Conversely, every cut site is a candidate whose counted run is the site's
      run, so it proposes the cut at the run's middle. */
  lemma CutSiteIsCandidate(empty: seq<bool>, y: nat, run: nat)
    requires IsCutSite(empty, y, run)
    ensures IsCandidate(empty, y) && CandidateCut(empty, y) == y - run / 2
    ensures CandidateCut(empty, y) in CandidatesFrom(empty, StartY(|empty|))
  {
    RunSpan(empty, y, run);
    CandidateProposed(empty, StartY(|empty|), y);
  }

  /** `run` empty rows ending just above row `y`, preceded by a non-empty row or
      by the start of the scan, are counted as a run of exactly `run`. */
  lemma {:induction false} RunSpan(empty: seq<bool>, y: nat, run: nat)
    requires StartY(|empty|) + run <= y <= |empty|
    requires forall k :: y - run <= k < y ==> empty[k]
    requires y - run == StartY(|empty|) || !empty[y - run - 1]
    ensures RunBefore(empty, y) == run
    decreases run
  {
    if run > 0 {
      RunSpan(empty, y - 1, run - 1);
    }
  }

  /** Without candidate rows from `y` on there are no proposals from `y` on. */
  lemma {:induction false} NoCandidatesFrom(empty: seq<bool>, y: nat)
    requires y <= EndY(|empty|)
    requires forall k :: y <= k < EndY(|empty|) ==> !IsCandidate(empty, k)
    ensures CandidatesFrom(empty, y) == []
    decreases EndY(|empty|) - y
  {
    if y < EndY(|empty|) {
      NoCandidatesFrom(empty, y + 1);
    }
  }

  /** An image whose scanned rows are all empty is not split: a gutter needs
      non-empty content below it. */
  lemma AllEmptyNotSplit(empty: seq<bool>, imgx: nat)
    requires forall y :: StartY(|empty|) <= y < EndY(|empty|) ==> empty[y]
    ensures ScanRegions(empty, imgx) == [Region(imgx, |empty|, 0, 0)]
  {
    NoCandidatesFrom(empty, StartY(|empty|));
  }

  /** In particular an image of one uniform intensity equal to the target is
      returned whole. */
  lemma UniformImageNotSplit(s: Splitter, img: GrayImage)
    requires img.Valid()
    requires forall y, x :: 0 <= y < img.height && 0 <= x < img.width ==> img.pixels[y][x] == TargetFor(s.blackLines).goal
    ensures SplitRegions(s, img) == [Region(img.width, img.height, 0, 0)]
  {
    var t := TargetFor(s.blackLines);
    var empty := EmptyRows(img, t);
    forall y | StartY(|empty|) <= y < EndY(|empty|)
      ensures empty[y]
    {
      BadCountUniform(img.pixels[y], t);
      EmptyRowsAt(img, t, y);
    }
    AllEmptyNotSplit(empty, img.width);
  }

  /** One row of the scan: the run grows at an empty row and restarts after a
      non-empty one. */
  lemma RunBeforeNext(empty: seq<bool>, y: nat)
    requires StartY(|empty|) <= y < |empty|
    ensures RunBefore(empty, y + 1) == if empty[y] then RunBefore(empty, y) + 1 else 0
  {
  }

  /** One row of the scan: a row proposes a cut exactly when it is a candidate. */
  lemma CandidatesFromNext(empty: seq<bool>, y: nat)
    requires StartY(|empty|) <= y < EndY(|empty|)
    ensures CandidatesFrom(empty, y) ==
      (if !empty[y] && RunBefore(empty, y) >= MinWhiteRows then [y - RunBefore(empty, y) / 2] else [])
      + CandidatesFrom(empty, y + 1)
  {
  }

  /** One proposal through the cut filter. */
  lemma GreedyNext(c: nat, rest: seq<nat>, current: nat, minHeight: nat)
    ensures Greedy([c] + rest, current, minHeight) ==
      if c > current + minHeight then [c] + Greedy(rest, c, minHeight) else Greedy(rest, current, minHeight)
  {
    assert ([c] + rest)[1..] == rest;
  }

  /** The state of the row scan before row `y`: `run` is the run of empty rows
      above `y`, `cuts` the cuts made so far with `currentY` the last of them,
      `regions` the slices they closed, and the cuts still to come from row `y` on
      complete `cuts` to the reference cuts. */
  ghost predicate ScanState(empty: seq<bool>, imgx: nat, y: nat, run: nat, currentY: nat,
                            cuts: seq<nat>, regions: seq<Region>)
  {
    && StartY(|empty|) <= y <= EndY(|empty|)
    && run == RunBefore(empty, y)
    && currentY + run <= y
    && Ascending(cuts) && currentY == LastCut(cuts)
    && regions == ClosedRegions(cuts, imgx)
    && cuts + Greedy(CandidatesFrom(empty, y), currentY, MinHeight(|empty|))
       == Greedy(CandidatesFrom(empty, StartY(|empty|)), 0, MinHeight(|empty|))
  }

  /** The scan starts at `StartY` with no run, no cut and no slice. */
  lemma ScanStart(empty: seq<bool>, imgx: nat)
    ensures ScanState(empty, imgx, StartY(|empty|), 0, 0, [], [])
  {
  }

  /** An empty row lengthens the run and changes nothing else. */
  lemma ScanEmptyRow(empty: seq<bool>, imgx: nat, y: nat, run: nat, currentY: nat,
                     cuts: seq<nat>, regions: seq<Region>)
    requires ScanState(empty, imgx, y, run, currentY, cuts, regions)
    requires y < EndY(|empty|) && empty[y]
    ensures ScanState(empty, imgx, y + 1, run + 1, currentY, cuts, regions)
  {
    RunBeforeNext(empty, y);
    CandidatesFromNext(empty, y);
  }

  /** A non-empty row that makes no cut, because the run above it is too short
      or the slice it would close is too low, only restarts the run. */
  lemma ScanRowWithoutCut(empty: seq<bool>, imgx: nat, y: nat, run: nat, currentY: nat,
                          cuts: seq<nat>, regions: seq<Region>)
    requires ScanState(empty, imgx, y, run, currentY, cuts, regions)
    requires y < EndY(|empty|) && !empty[y]
    requires run < MinWhiteRows || y - run / 2 - currentY <= MinHeight(|empty|)
    ensures ScanState(empty, imgx, y + 1, 0, currentY, cuts, regions)
  {
    RunBeforeNext(empty, y);
    CandidatesFromNext(empty, y);
    if run >= MinWhiteRows {
      GreedyNext(y - run / 2, CandidatesFrom(empty, y + 1), currentY, MinHeight(|empty|));
    }
  }

  /** A non-empty row below a long enough run whose middle lies more than
      `MinHeight` below the last cut makes that middle the next cut and closes
      the slice above it. */
  lemma ScanRowWithCut(empty: seq<bool>, imgx: nat, y: nat, run: nat, currentY: nat,
                       cuts: seq<nat>, regions: seq<Region>)
    requires ScanState(empty, imgx, y, run, currentY, cuts, regions)
    requires y < EndY(|empty|) && !empty[y]
    requires run >= MinWhiteRows && y - run / 2 - currentY > MinHeight(|empty|)
    ensures ScanState(empty, imgx, y + 1, 0, y - run / 2, cuts + [y - run / 2],
                      regions + [Region(imgx, y - run / 2 - currentY, 0, currentY)])
  {
    var c := y - run / 2;
    var minHeight := MinHeight(|empty|);
    var rest := CandidatesFrom(empty, y + 1);
    RunBeforeNext(empty, y);
    CandidatesFromNext(empty, y);
    GreedyNext(c, rest, currentY, minHeight);
    assert Greedy(CandidatesFrom(empty, y), currentY, minHeight) == [c] + Greedy(rest, c, minHeight);
    assert (cuts + [c]) + Greedy(rest, c, minHeight) == cuts + ([c] + Greedy(rest, c, minHeight));
    ClosedRegionsSnoc(cuts, c, imgx);
  }

  /** At the end of the scan the cuts are the reference cuts, and appending the
      slice below the last cut gives the reference regions. */
  lemma ScanEnd(empty: seq<bool>, imgx: nat, run: nat, currentY: nat,
                cuts: seq<nat>, regions: seq<Region>)
    requires ScanState(empty, imgx, EndY(|empty|), run, currentY, cuts, regions)
    ensures cuts == ScanCuts(empty)
    ensures regions + [Region(imgx, |empty| - currentY, 0, currentY)] == ScanRegions(empty, imgx)
  {
  }

  /** `get_split_regions`: the regions of the image for the splitter's target.
      They tile the image, and every one but the last is taller than `MinHeight`. */
  method GetSplitRegions(s: Splitter, buffer: GrayImage) returns (regions: seq<Region>)
    requires buffer.Valid()
    ensures regions == SplitRegions(s, buffer)
    ensures Tiles(regions, buffer.width, buffer.height)
    ensures forall i :: 0 <= i < |regions| - 1 ==> regions[i].height > MinHeight(buffer.height)
  {
    regions := ScanRows(buffer, TargetFor(s.blackLines));
    ScanRegionsTile(EmptyRows(buffer, TargetFor(s.blackLines)), buffer.width);
  }

  /** The row loop of `get_split_regions`: scan rows `StartY .. EndY`, classify
      each, and let `ScanRow` update the run, the last cut and the regions. The
      rest of the image is always appended as the last region. */
  method ScanRows(buffer: GrayImage, target: Target) returns (regions: seq<Region>)
    requires buffer.Valid()
    ensures regions == ScanRegions(EmptyRows(buffer, target), buffer.width)
  {
    regions := [];
    var imgx := buffer.width;
    var imgy := buffer.height;
    var badPixelLimit := imgx / 20;
    var startY := imgy / 5;
    var endY := imgy - startY;
    var consecutiveEmptyRows: nat := 0;
    var currentY: nat := 0;

    ghost var empty := EmptyRows(buffer, target);
    ghost var cuts: seq<nat> := [];
    assert |empty| == imgy;
    ScanStart(empty, imgx);

    var y := startY;
    while y < endY
      invariant startY <= y <= endY && currentY <= imgy
      invariant ScanState(empty, imgx, y, consecutiveEmptyRows, currentY, cuts, regions)
      decreases endY - y
    {
      var rowIsEmpty := ClassifyImageRow(buffer, target, badPixelLimit, y);
      consecutiveEmptyRows, currentY, cuts, regions :=
        ScanRow(empty, imgx, imgy, y, rowIsEmpty, consecutiveEmptyRows, currentY, cuts, regions);
      y := y + 1;
    }

    ScanEnd(empty, imgx, consecutiveEmptyRows, currentY, cuts, regions);
    regions := AppendRest(regions, imgx, imgy, currentY);
  }

  /** The end of `get_split_regions`: the source tests whether any cut was made,
      but both branches append the same region, the full-width rest of the image
      from the last cut `currentY` to the bottom. */
  method AppendRest(regions: seq<Region>, imgx: nat, imgy: nat, currentY: nat) returns (regions': seq<Region>)
    requires currentY <= imgy
    ensures regions' == regions + [Region(imgx, imgy - currentY, 0, currentY)]
  {
    if |regions| == 0 {
      regions' := regions + [Region(imgx, imgy - currentY, 0, currentY)];
    } else {
      regions' := regions + [Region(imgx, imgy - currentY, 0, currentY)];
    }
  }

  /** The body of the row loop for row `y`, whose flag is `rowIsEmpty`: an empty
      row lengthens the run; a non-empty row that ends a run of at least
      `MinWhiteRows` proposes a cut at the run's middle and keeps it when the
      slice above it is taller than `MinHeight`; either way a non-empty row
      restarts the run. Every subtraction is on `nat` and is checked not to
      underflow, as the source's `u32` arithmetic requires. */
  method ScanRow(ghost empty: seq<bool>, imgx: nat, imgy: nat, y: nat, rowIsEmpty: bool,
                 consecutiveEmptyRows: nat, currentY: nat, ghost cuts: seq<nat>, regions: seq<Region>)
    returns (consecutiveEmptyRows': nat, currentY': nat, ghost cuts': seq<nat>, regions': seq<Region>)
    requires ScanState(empty, imgx, y, consecutiveEmptyRows, currentY, cuts, regions)
    requires imgy == |empty| && y < EndY(imgy) && rowIsEmpty == empty[y]
    ensures ScanState(empty, imgx, y + 1, consecutiveEmptyRows', currentY', cuts', regions')
    ensures currentY' <= y
  {
    var minWhiteRows := 10;
    var minHeight := imgy / 5;
    consecutiveEmptyRows', currentY', cuts', regions' := consecutiveEmptyRows, currentY, cuts, regions;
    if rowIsEmpty {
      ScanEmptyRow(empty, imgx, y, consecutiveEmptyRows, currentY, cuts, regions);
      consecutiveEmptyRows' := consecutiveEmptyRows + 1;
    } else {
      if consecutiveEmptyRows >= minWhiteRows {
        var tempY: nat := y - consecutiveEmptyRows / 2;
        var height: nat := tempY - currentY;
        if height > minHeight {
          ScanRowWithCut(empty, imgx, y, consecutiveEmptyRows, currentY, cuts, regions);
          regions' := regions + [Region(imgx, tempY - currentY, 0, currentY)];
          cuts' := cuts + [tempY];
          currentY' := tempY;
        } else {
          ScanRowWithoutCut(empty, imgx, y, consecutiveEmptyRows, currentY, cuts, regions);
        }
      } else {
        ScanRowWithoutCut(empty, imgx, y, consecutiveEmptyRows, currentY, cuts, regions);
      }
      consecutiveEmptyRows' := 0;
    }
  }

  /** One request of the save loop: crop this region and write it to this path. */
  datatype SaveRequest = SaveRequest(region: Region, path: string)

  /** The loop of `split_color_buffer` over the regions: region `i` is cropped and
      saved under the base path with suffix `i`. The crop and the encoder are not
      modelled, so the loop yields the requests it would issue; the count it
      returns is never zero. */
  method SplitColorBuffer(s: Splitter, buffer: GrayImage, basePath: string)
    returns (requests: seq<SaveRequest>, numSplit: nat)
    requires buffer.Valid() && HasStemAndExtension(FileName(basePath))
    ensures numSplit == |requests| == |SplitRegions(s, buffer)| && numSplit > 0
    ensures forall i :: 0 <= i < |requests| ==>
      requests[i].region == SplitRegions(s, buffer)[i] && requests[i].path == OutputPath(basePath, i)
    ensures forall i :: 0 <= i < |requests| ==>
      requests[i].region.x == 0 && requests[i].region.width == buffer.width && Bottom(requests[i].region) <= buffer.height
    ensures forall i, j :: 0 <= i < j < |requests| ==> requests[i].path != requests[j].path
    ensures forall i :: 0 <= i < |requests| ==> Directory(requests[i].path) == Directory(basePath)
  {
    var locs := GetSplitRegions(s, buffer);
    requests := SaveRequests(locs, basePath);
    forall i | 0 <= i < |requests|
      ensures Bottom(requests[i].region) <= buffer.height
    {
      TilesWithinImage(locs, buffer.width, buffer.height, i);
    }
    forall i, j | 0 <= i < j < |requests|
      ensures requests[i].path != requests[j].path
    {
      OutputPathsDistinct(basePath, i, j);
    }
    numSplit := |locs|;
  }

  /** The save requests of the regions in order: request `i` crops region `i`
      and names the result with index `i`. */
  method SaveRequests(locs: seq<Region>, basePath: string) returns (requests: seq<SaveRequest>)
    requires HasStemAndExtension(FileName(basePath))
    ensures |requests| == |locs|
    ensures forall i :: 0 <= i < |locs| ==> requests[i].region == locs[i] && requests[i].path == OutputPath(basePath, i)
  {
    requests := [];
    var index := 0;
    while index < |locs|
      invariant 0 <= index <= |locs|
      invariant |requests| == index
      invariant forall i :: 0 <= i < index ==> requests[i].region == locs[i]
      invariant forall i :: 0 <= i < index ==> requests[i].path == OutputPath(basePath, i)
    {
      var outputPath := OutputPath(basePath, index);
      requests := requests + [SaveRequest(locs[index], outputPath)];
      index := index + 1;
    }
  }
}
