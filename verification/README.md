# comic_splitter: the gutter finder

comic_splitter cuts a scanned comic page into its horizontal strips. `Splitter::get_split_regions`
(src/splitter.rs) works on the grayscale page. It looks for "gutters": runs of rows that are
nearly all white, or nearly all black when `black_lines` is set. It cuts the page at the middle
of each gutter that is long enough and leaves a tall enough strip above it.
`split_color_buffer` then saves region `i` as `<stem>_<i>.<ext>` next to the base output path.

This project models that core in Dafny and proves what the row scan guarantees. It has four
modules:

- `Pixels` (pixels.dfy): the 8-bit sample, `abs_difference`, the target intensity and tolerance,
  and the pixel loop that decides whether one row is empty.
- `Regions` (regions.dfy): `Region`, and the `Tiles` predicate (full-width bands that cover the
  image top to bottom). A tiling and its list of cut rows describe each other, and there is a
  round trip in both directions.
- `Paths` (paths.dfy): `add_file_suffix` over `/`-separated strings, and the decimal numeral
  of the region index.
- `Splitter` (splitter.dfy): the scan and the save loop.

The scan is stated twice.

- `ScanRows` and `ScanRow` are the row loop as the source writes it. The loop carries the run
  counter `consecutive_empty_rows`, the last cut `current_y` and the regions emitted so far.
- `SplitRegions` is a reference definition built from three separate ideas:
  - `RunBefore`: the run of empty rows above a row;
  - `CandidatesFrom`: the cut each qualifying non-empty row proposes;
  - `Greedy`: the filter that keeps a proposal only when the strip above it is taller than
    `imgy/5`.

The loop is proved to compute the reference exactly. The properties are then proved about the
reference: tiling, heights, where cuts can come from, and the no-cut case.

src/splitter.rs scans rows `imgy/5 .. imgy - imgy/5` and counts bad pixels one by one. A
gutter needs at least 10 empty rows.

In the source, the final `if` of `get_split_regions` tests whether any region was emitted, but
both branches append the same region. The model keeps both branches (`AppendRest`). So the
rest of the image is always appended, the result is never empty, and `split_color_buffer`
never returns 0.

## Model

| member | source | states |
|---|---|---|
| Pixels.AbsDifference | src/splitter.rs:148-154 | the result is the distance between the two samples (x + r == y or y + r == x); each branch subtracts the smaller from the larger, so it never underflows; and it is 0 exactly when x == y |
| Pixels.AbsDifferenceSymmetric | src/splitter.rs:148-154 | the distance does not depend on the argument order |
| Pixels.BadPixelBand | src/splitter.rs:84 | with `black_lines` the target (0, 100) makes a sample bad exactly when it exceeds 100; otherwise the target (255, 5) makes it bad exactly when it is below 250 |
| Pixels.BadCountIsBadColumns | src/splitter.rs:87-99 | the bad-sample count of a row is the number of its columns holding a sample that deviates from the goal by more than the margin |
| Pixels.ClassifyRow | src/splitter.rs:87-100 | the pixel loop reports the row empty exactly when at most `bad_pixel_limit` of its samples are bad; stopping at the first sample past the limit gives the same answer as counting the whole row |
| Splitter.EmptyRowsAt | src/splitter.rs:74 | the flag of row y is the classification of row y with the limit `imgx/20` |
| Splitter.ClassifyImageRow | src/splitter.rs:86-100 | the pixel loop over row y of the buffer computes that row's flag |
| Splitter.RunBefore | src/splitter.rs:81 | the run of empty rows above row y is 0 or fits between the start of the scan and y |
| Splitter.RunBeforeIsMaximalRun | src/splitter.rs:103-104 | the rows the run counts are all empty, and the row above them is non-empty unless it lies above the scan |
| Splitter.CandidateCutBounds | src/splitter.rs:106-107 | the cut a candidate row proposes, y - run/2, lies at least five rows below the start of the scan and at least five rows above the candidate row, so the subtraction never underflows |
| Splitter.CandidatesFromBounds | src/splitter.rs:75-78 | every proposed cut lies at least five rows below `imgy/5` and above `imgy - imgy/5` |
| Splitter.CandidatesFromMembers | src/splitter.rs:86-107 | a row c is proposed from row y on exactly when some candidate row at or below y proposes it |
| Splitter.GreedyClears | src/splitter.rs:108-119 | the kept cuts are proposals; each lies more than `min_height` below the starting row, and each lies more than `min_height` below every earlier kept cut |
| Splitter.GreedySplit | src/splitter.rs:106-119 | the cut filter runs left to right: after the first k proposals it carries on from the last cut it kept among them, or from row 0 when it kept none |
| Splitter.GreedyKeeps | src/splitter.rs:108-118 | a proposal more than `min_height` below the last kept cut is kept, and the filter carries on from it |
| Splitter.GreedyDrops | src/splitter.rs:108-119 | a proposal at most `min_height` below the last kept cut is dropped, and the filter carries on from the same last cut |
| Splitter.ScanCuts | src/splitter.rs:75-79 | the cuts of the scan clear row 0 and each other by more than `imgy/5`, lie inside the scan window, and increase strictly |
| Splitter.ScanRegionsTile | src/splitter.rs:110-143 | the regions tile the image: full width, starting at row 0, each starting where the previous one ends, the last ending at `imgy`; every region but the last is taller than `imgy/5`; in an image with rows no region is empty |
| Splitter.NoCutWholeImage | src/splitter.rs:126-134 | no cut is made exactly when the result is the single region (x 0, y 0, width imgx, height imgy), and exactly when the result has one region |
| Splitter.CutOrigin | src/splitter.rs:103-122 | every cut is the middle, y - run/2, of a maximal run of at least 10 empty rows that a non-empty row y inside the scan closes; so a run still open at `end_y` proposes nothing |
| Splitter.CutSiteIsCandidate | src/splitter.rs:103-107 | conversely, every non-empty row in the scan that closes a maximal run of at least 10 empty rows proposes the cut at the run's middle |
| Splitter.AllEmptyNotSplit | src/splitter.rs:103-104 | an image whose scanned rows are all empty is returned as one region |
| Splitter.UniformImageNotSplit | src/splitter.rs:84-100 | an image whose every sample equals the target's goal is returned as one region |
| Splitter.ScanStart | src/splitter.rs:70-82 | the scan starts at `imgy/5` with no run, no cut and no region, and the cuts still to come are all the reference cuts |
| Splitter.ScanEmptyRow | src/splitter.rs:103-104 | an empty row lengthens the run by one and keeps the last cut and the regions |
| Splitter.ScanRowWithoutCut | src/splitter.rs:105-121 | a non-empty row after a run shorter than 10, or whose proposed strip is not taller than `imgy/5`, only restarts the run |
| Splitter.ScanRowWithCut | src/splitter.rs:106-121 | a non-empty row after a run of at least 10 whose strip is taller than `imgy/5` makes the run's middle the last cut and emits the strip from the previous cut to it |
| Splitter.ScanEnd | src/splitter.rs:125-143 | at `end_y` the cuts made are the reference cuts, and appending the rest of the image gives the reference regions |
| Splitter.ScanRow | src/splitter.rs:103-122 | one iteration of the row loop keeps the scan state for the next row; whenever the run is at least 10, `y - run/2` and `temp_y - current_y` are computed before the height test, and neither goes below zero; the last cut never passes the current row |
| Splitter.AppendRest | src/splitter.rs:125-143 | whether or not a region was emitted, both branches append the same region: the full-width rest of the image from the last cut `current_y` to the bottom, Region(imgx, imgy - current_y, 0, current_y) |
| Splitter.ScanRows | src/splitter.rs:69-146 | the row loop returns exactly the reference regions of the buffer's row flags |
| Splitter.GetSplitRegions | src/splitter.rs:69-146 | `get_split_regions` returns the reference regions; they tile the image; every region but the last is taller than `imgy/5` |
| Splitter.SaveRequests | src/splitter.rs:55-64 | request i crops region i and is saved under the base path with suffix i |
| Splitter.SplitColorBuffer | src/splitter.rs:47-67 | the count returned is the number of regions and is never 0; region i is saved under suffix i; every crop starts at column 0, spans the image's width and ends at or above its bottom; no two regions get the same path; all paths share the base path's directory |
| Regions.RegionsFromCutsTile | src/splitter.rs:110-118 | any ascending cuts inside the image give a tiling, and the tiling gives back the same cuts |
| Regions.TilingFromItsCuts | src/splitter.rs:128-142 | every tiling is the one its own cuts describe: its cuts ascend, stay inside the image, and rebuild it |
| Regions.RegionsFromCutsHeights | src/splitter.rs:108-119 | cuts that clear each other by more than `min_height` give strips taller than `min_height` except the last, which runs from the last cut to the bottom |
| Regions.TilesWithinImage | src/splitter.rs:56-57 | every region of a tiling lies inside the image, so its crop is in bounds |
| Regions.TilesCoverEachRowOnce | src/splitter.rs:110-143 | every row of the image lies in exactly one region |
| Paths.LastIndexOf | src/splitter.rs:160-162 | the result is -1 or a position holding the character, and no later position holds it |
| Paths.DirectoryAndFileName | src/splitter.rs:165-167 | a path is its directory followed by its file name; the file name holds no separator; the directory is empty or ends with one |
| Paths.StemAndExtension | src/splitter.rs:160-162 | a name with a stem and an extension is stem + "." + extension; the stem is not empty; the extension holds no dot |
| Paths.AddFileSuffix | src/splitter.rs:157-168 | the new path keeps the directory, and its file name is stem + "_" + suffix + "." + extension |
| Paths.SuffixedNameParts | src/splitter.rs:158-163 | the new file name still has a stem and an extension: the stem gained "_" + suffix, and the extension is unchanged |
| Paths.ParseDecimalString | src/splitter.rs:59 | reading the numeral of an index back gives the index |
| Paths.DecimalStringInjective | src/splitter.rs:59 | distinct indices get distinct numerals |
| Paths.OutputPath | src/splitter.rs:59 | the output path of a region stays in the base path's directory |
| Paths.OutputPathsDistinct | src/splitter.rs:55-59 | two regions never get the same output path |

## Left out

- `split_image` (src/splitter.rs:23-45) is not modelled. It opens and decodes the file, panics through `expect` on errors, and deletes the original with `fs::remove_file`. All of this is file I/O. `remove_original` is kept as a field but has no effect on the model.
- The `image` crate is not modelled: decoding, `to_luma`, `sub_image` and `save` (src/splitter.rs:52-63) are foreign calls. The model takes the grayscale buffer as given, as rows of 8-bit samples (`get_pixel(x, y).0[0]` is `pixels[y][x]`). `SplitColorBuffer` returns the save requests (region and path) that the loop would issue, instead of writing files. The colour image is assumed to have the grayscale buffer's geometry.
- The `println!` and `dbg!` diagnostics (src/splitter.rs:60, 127) are output only. The `path` parameter of `get_split_regions` is used only by that `println!`, so it is omitted.
- src/main.rs is not part of this model. It holds argument parsing, path checks, the parallel `par_iter` fan-out and timing.
- Integer width: Rust's `u32` and `usize` are Dafny `nat`. Every subtraction of the scan is checked not to go below zero, which is the property the `u32` type needs. The counters are bounded by the image size, so overflow cannot occur.
- Paths are strings with `/` as the only separator. `std::path` details are not modelled: trailing separators, `.` components, platform prefixes, and non-UTF-8 names (the `to_str().unwrap()`).
- Paths.AddFileSuffix: requires that the file name has a stem and an extension. The source panics otherwise, in `file_stem().unwrap()` and `extension().unwrap()`. It also requires that the suffix holds no `/`. The source only ever passes a decimal index, and `with_file_name` would treat a `/` as a path separator.
- Splitter.SplitColorBuffer: requires that the base path's file name has a stem and an extension. Without one, the source panics in `add_file_suffix` on the first region.
